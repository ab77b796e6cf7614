/**
 * The collection transcoders of src/ros_msgdict/msgdict.py: the two shape
 * validators and the two loops that turn a dict of ROS messages into a dict
 * of envelopes `{"type": ..., "dict": ...}` and back. The message converter
 * of rospy_message_converter is external: its two directions are parameters.
 */
module MsgDict {
  import opened PyValues
  import opened MsgType
  import opened StringFormat

  /** `convert_ros_message_to_dictionary`. */
  type MessageToDict = RosMessage -> map<string, Value>

  /** `convert_dictionary_to_ros_message(name, dict, kind=kind)`; `None` when it raises. */
  type DictToMessage = (string, map<string, Value>, string) -> Option<RosMessage>

  const TypeKey := "type"
  const DictKey := "dict"

  /** One envelope as `_check_dict_format` accepts it. */
  predicate WellFormedEntry(v: Value) {
    && v.Dict?
    && v.entries.Keys == {TypeKey, DictKey}
    && v.entries[TypeKey].Str? && !v.entries[TypeKey].isUnicode
    && v.entries[DictKey].Dict?
  }

  predicate AllWellFormed(d: map<string, Value>) {
    forall k :: k in d ==> WellFormedEntry(d[k])
  }

  /** Every value is a message object, the test of `_check_msgdict_format`. */
  predicate AllMessages(md: map<string, Value>) {
    forall k :: k in md ==> md[k].Msg?
  }

  /** The position in `order` of the first entry that is not a well-formed envelope, or `|order|`. */
  function FirstOffending(d: map<string, Value>, order: seq<string>): (i: nat)
    requires forall j :: 0 <= j < |order| ==> order[j] in d
    ensures i <= |order|
    ensures forall j :: 0 <= j < i ==> WellFormedEntry(d[order[j]])
    ensures i < |order| ==> !WellFormedEntry(d[order[i]])
  {
    if order == [] then 0
    else if !WellFormedEntry(d[order[0]]) then 0
    else 1 + FirstOffending(d, order[1..])
  }

  /**
   * What `_check_dict_format` returns or raises when the keys come in
   * `order`: it stops at the first bad entry, returning False, unless that
   * entry is not a dict at all, whose missing `.keys()` raises.
   */
  function DictFormatVerdict(d: map<string, Value>, order: seq<string>): (r: Outcome<bool>)
    requires IsIterationOrder(order, d.Keys)
    ensures r == Returned(true) <==> AllWellFormed(d)
    ensures r == Returned(false) ==> exists k :: k in d && d[k].Dict? && !WellFormedEntry(d[k])
    ensures r.Raised? ==> r.exc.key in d && !d[r.exc.key].Dict?
    ensures (forall k :: k in d ==> d[k].Dict?) ==> r.Returned?
  {
    var i := FirstOffending(d, order);
    if i == |order| then Returned(true)
    else if d[order[i]].Dict? then Returned(false)
    else Raised(AttributeError(order[i]))
  }

  /** `_check_dict_format`. */
  method CheckDictFormat(d: map<string, Value>, order: seq<string>) returns (r: Outcome<bool>)
    requires IsIterationOrder(order, d.Keys)
    ensures r == DictFormatVerdict(d, order)
  {
    var i := 0;
    while i < |order|
      invariant 0 <= i <= |order|
      invariant forall j :: 0 <= j < i ==> WellFormedEntry(d[order[j]])
    {
      var entry := d[order[i]];
      if !entry.Dict? {
        return Raised(AttributeError(order[i]));
      }
      if entry.entries.Keys != {TypeKey, DictKey} {
        return Returned(false);
      }
      var typeName := entry.entries[TypeKey];
      if !(typeName.Str? && !typeName.isUnicode) {
        return Returned(false);
      }
      if !entry.entries[DictKey].Dict? {
        return Returned(false);
      }
      i := i + 1;
    }
    return Returned(true);
  }

  /** `_check_msgdict_format`. */
  method CheckMsgDictFormat(md: map<string, Value>, order: seq<string>) returns (ok: bool)
    requires IsIterationOrder(order, md.Keys)
    ensures ok <==> AllMessages(md)
  {
    var i := 0;
    while i < |order|
      invariant 0 <= i <= |order|
      invariant forall j :: 0 <= j < i ==> md[order[j]].Msg?
    {
      if !md[order[i]].Msg? {
        return false;
      }
      i := i + 1;
    }
    return true;
  }

  /** The body of the `try` in `_dict2msgdict` for one envelope. */
  function DecodeEntry(fromDict: DictToMessage, entry: Value): Option<RosMessage>
    requires WellFormedEntry(entry)
  {
    var (name, kind) := MsgTypeToKind(entry.entries[TypeKey].s);
    fromDict(name, entry.entries[DictKey].entries, kind)
  }

  /** What `_dict2msgdict` returns or raises when the keys come in `order`. */
  function DecodeCollection(d: map<string, Value>, order: seq<string>, fromDict: DictToMessage)
    : Outcome<Option<map<string, RosMessage>>>
    requires IsIterationOrder(order, d.Keys)
  {
    match DictFormatVerdict(d, order)
    case Raised(e) => Raised(e)
    case Returned(ok) =>
      if !ok then Returned(None)
      else if forall k :: k in d ==> DecodeEntry(fromDict, d[k]).Some? then
        Returned(Some(map k | k in d :: DecodeEntry(fromDict, d[k]).value))
      else Returned(None)
  }

  /**
   * All or nothing: `_dict2msgdict` raises only where the shape check does,
   * fails as a whole when the shape check or any one conversion fails, and
   * otherwise converts every entry under its own key.
   */
  lemma DecodeCollectionAllOrNothing(d: map<string, Value>, order: seq<string>, fromDict: DictToMessage)
    requires IsIterationOrder(order, d.Keys)
    ensures DecodeCollection(d, order, fromDict).Raised? <==> DictFormatVerdict(d, order).Raised?
    ensures DecodeCollection(d, order, fromDict) == Returned(None) <==>
      (DictFormatVerdict(d, order) == Returned(false) ||
       (AllWellFormed(d) && exists k :: k in d && DecodeEntry(fromDict, d[k]).None?))
    ensures DecodeCollection(d, order, fromDict).Returned? && DecodeCollection(d, order, fromDict).value.Some? ==>
      var m := DecodeCollection(d, order, fromDict).value.value;
      AllWellFormed(d) && m.Keys == d.Keys &&
      forall k :: k in d ==> DecodeEntry(fromDict, d[k]) == Some(m[k])
  {
  }

  /** One failed conversion makes the whole collection fail. */
  lemma DecodeFailsAt(d: map<string, Value>, order: seq<string>, fromDict: DictToMessage, k: string)
    requires IsIterationOrder(order, d.Keys)
    requires AllWellFormed(d)
    requires k in d && DecodeEntry(fromDict, d[k]).None?
    ensures DecodeCollection(d, order, fromDict) == Returned(None)
  {
  }

  /** A map that holds each entry's conversion under each key of a well-formed collection is the result. */
  lemma DecodeSucceedsWith(d: map<string, Value>, order: seq<string>, fromDict: DictToMessage, m: map<string, RosMessage>)
    requires IsIterationOrder(order, d.Keys)
    requires AllWellFormed(d)
    requires forall k :: k in m ==> k in d && DecodeEntry(fromDict, d[k]) == Some(m[k])
    requires forall j :: 0 <= j < |order| ==> order[j] in m
    ensures DecodeCollection(d, order, fromDict) == Returned(Some(m))
  {
    assert m.Keys == d.Keys;
    assert (map k | k in d :: DecodeEntry(fromDict, d[k]).value) == m;
  }

  /** `_dict2msgdict`. */
  method DictToMsgDict(d: map<string, Value>, order: seq<string>, fromDict: DictToMessage)
    returns (r: Outcome<Option<map<string, RosMessage>>>)
    requires IsIterationOrder(order, d.Keys)
    ensures r == DecodeCollection(d, order, fromDict)
  {
    var check := CheckDictFormat(d, order);
    if check.Raised? {
      return Raised(check.exc);
    }
    if !check.value {
      return Returned(None);
    }
    var msgDict: map<string, RosMessage> := map[];
    var i := 0;
    while i < |order|
      invariant 0 <= i <= |order|
      invariant forall j :: 0 <= j < i ==> order[j] in msgDict
      invariant forall k :: k in msgDict ==> k in d && DecodeEntry(fromDict, d[k]) == Some(msgDict[k])
    {
      var entry := d[order[i]];
      var (name, kind) := MsgTypeToKind(entry.entries[TypeKey].s);
      var converted := fromDict(name, entry.entries[DictKey].entries, kind);
      if converted.None? {
        DecodeFailsAt(d, order, fromDict, order[i]);
        return Returned(None);
      }
      msgDict := msgDict[order[i] := converted.value];
      i := i + 1;
    }
    DecodeSucceedsWith(d, order, fromDict, msgDict);
    return Returned(Some(msgDict));
  }

  /** The envelope `_msgdict2_dict` stores for one message. */
  function EncodeEntry(toDict: MessageToDict, m: RosMessage): (r: Value)
    ensures WellFormedEntry(r)
    ensures r.entries[TypeKey].s == m.msgType
    ensures Canonical(r.entries[DictKey])
  {
    FormatValueCanonical(Dict(toDict(m)));
    Dict(map[TypeKey := Str(m.msgType, false), DictKey := Dict(Formatted(toDict(m)))])
  }

  /**
   * What `_msgdict2_dict` returns: `None` (falling off the end) unless every
   * value is a message, otherwise one envelope per key.
   */
  function EncodeCollection(md: map<string, Value>, toDict: MessageToDict): (r: Option<map<string, Value>>)
    ensures r.None? <==> !AllMessages(md)
    ensures r.Some? ==> r.value.Keys == md.Keys && AllWellFormed(r.value)
  {
    if AllMessages(md) then Some(map k | k in md :: EncodeEntry(toDict, md[k].msg)) else None
  }

  /** A map that holds each message's envelope under each key of a collection of messages is the result. */
  lemma EncodeSucceedsWith(md: map<string, Value>, toDict: MessageToDict, order: seq<string>, e: map<string, Value>)
    requires IsIterationOrder(order, md.Keys)
    requires AllMessages(md)
    requires forall k :: k in e ==> k in md && e[k] == EncodeEntry(toDict, md[k].msg)
    requires forall j :: 0 <= j < |order| ==> order[j] in e
    ensures EncodeCollection(md, toDict) == Some(e)
  {
    assert e.Keys == md.Keys;
    assert (map k | k in md :: EncodeEntry(toDict, md[k].msg)) == e;
  }

  /** `_msgdict2_dict`. */
  method MsgDictToDict(md: map<string, Value>, order: seq<string>, toDict: MessageToDict)
    returns (r: Option<map<string, Value>>)
    requires IsIterationOrder(order, md.Keys)
    ensures r == EncodeCollection(md, toDict)
  {
    var ok := CheckMsgDictFormat(md, order);
    if !ok {
      return None;
    }
    var envelopes: map<string, Value> := map[];
    var i := 0;
    while i < |order|
      invariant 0 <= i <= |order|
      invariant forall j :: 0 <= j < i ==> order[j] in envelopes
      invariant forall k :: k in envelopes ==> k in md && envelopes[k] == EncodeEntry(toDict, md[k].msg)
    {
      var m := md[order[i]].msg;
      var payload := StringFormatting(toDict(m));
      envelopes := envelopes[order[i] := Dict(map[TypeKey := Str(m.msgType, false), DictKey := Dict(payload)])];
      i := i + 1;
    }
    EncodeSucceedsWith(md, toDict, order, envelopes);
    return Some(envelopes);
  }

  /** Every envelope `_msgdict2_dict` produces passes `_check_dict_format`, whatever the key order. */
  lemma EncodedPassesFormatCheck(md: map<string, Value>, toDict: MessageToDict, order: seq<string>)
    requires AllMessages(md)
    requires IsIterationOrder(order, md.Keys)
    ensures DictFormatVerdict(EncodeCollection(md, toDict).value, order) == Returned(true)
  {
  }

  /**
   * The registry inverts the encoder on `m` up to text normalization, when it
   * is asked for the message's own base name and kind; `_type` is the name
   * stored for that base and kind.
   */
  ghost predicate RegistryInverts(toDict: MessageToDict, fromDict: DictToMessage, m: RosMessage, base: string, kind: string) {
    && kind in {ResponseKind, RequestKind, MessageKind}
    && m.msgType == StoredName(base, kind)
    && fromDict(base, Formatted(toDict(m)), kind) == Some(m)
  }

  /** `m` has a base name and kind that resolution gives back, under which the registry inverts the encoder. */
  ghost predicate RoundTripsThroughRegistry(toDict: MessageToDict, fromDict: DictToMessage, m: RosMessage) {
    exists base, kind :: ResolvesBack(base, kind) && RegistryInverts(toDict, fromDict, m, base, kind)
  }

  /**
   * One message survives being wrapped in an envelope and read back: loading
   * resolves the stored `_type` to the message's own base name and kind.
   */
  lemma EntryRoundTrip(toDict: MessageToDict, fromDict: DictToMessage, m: RosMessage, base: string, kind: string)
    requires ResolvesBack(base, kind)
    requires RegistryInverts(toDict, fromDict, m, base, kind)
    ensures DecodeEntry(fromDict, EncodeEntry(toDict, m)) == Some(m)
  {
    StoredNameResolves(base, kind);
  }

  /**
   * Saving a dict of messages and loading it back gives the same messages
   * under the same keys, whatever order the loaded dict yields its keys in,
   * when every stored type name resolves back to its own base and kind.
   */
  lemma CollectionRoundTrip(md: map<string, Value>, toDict: MessageToDict, fromDict: DictToMessage, order: seq<string>)
    requires AllMessages(md)
    requires forall k :: k in md ==> RoundTripsThroughRegistry(toDict, fromDict, md[k].msg)
    requires IsIterationOrder(order, md.Keys)
    ensures EncodeCollection(md, toDict).Some?
    ensures DecodeCollection(EncodeCollection(md, toDict).value, order, fromDict)
         == Returned(Some(map k | k in md :: md[k].msg))
  {
    var e := EncodeCollection(md, toDict).value;
    var m := map k | k in md :: md[k].msg;
    forall k | k in m ensures k in e && DecodeEntry(fromDict, e[k]) == Some(m[k]) {
      var base, kind :| ResolvesBack(base, kind) && RegistryInverts(toDict, fromDict, md[k].msg, base, kind);
      EntryRoundTrip(toDict, fromDict, md[k].msg, base, kind);
    }
    DecodeSucceedsWith(e, order, fromDict, m);
  }

  /**
   * As written, a collection holding the plain message type
   * "pkg/ResponseTime" does not load back: loading asks the registry for the
   * response type "pkg/Resp", and when the registry has none the whole
   * collection fails, even though the registry inverts the encoder on the
   * message's own type.
   */
  lemma MangledTypeDefeatsRoundTrip(md: map<string, Value>, toDict: MessageToDict, fromDict: DictToMessage,
                                    order: seq<string>, k: string)
    requires AllMessages(md)
    requires IsIterationOrder(order, md.Keys)
    requires k in md && md[k].msg.msgType == "pkg/ResponseTime"
    requires RegistryInverts(toDict, fromDict, md[k].msg, "pkg/ResponseTime", MessageKind)
    requires fromDict("pkg/Resp", Formatted(toDict(md[k].msg)), ResponseKind).None?
    ensures EncodeCollection(md, toDict).Some?
    ensures DecodeCollection(EncodeCollection(md, toDict).value, order, fromDict) == Returned(None)
  {
    var e := EncodeCollection(md, toDict).value;
    SubstringTestMangles();
    assert DecodeEntry(fromDict, e[k]).None?;
    DecodeFailsAt(e, order, fromDict, k);
  }
}
