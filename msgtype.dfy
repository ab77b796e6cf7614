/**
 * Type-name resolution, `_msgtype2kind` in src/ros_msgdict/msgdict.py: the
 * stored type name of an envelope is split into the base name the message
 * registry resolves and the kind ("response", "request" or "message").
 * The test is Python's substring containment `"Response" in name`, not a
 * suffix test, and a match always drops the last 8 (or 7) characters.
 */
module MsgType {

  const ResponseWord := "Response"
  const RequestWord := "Request"
  const ResponseKind := "response"
  const RequestKind := "request"
  const MessageKind := "message"

  /** `sub` occurs in `s` starting at index `i`. */
  ghost predicate OccursAt(s: string, sub: string, i: int) {
    0 <= i && i + |sub| <= |s| && s[i..i + |sub|] == sub
  }

  /** Python's `sub in s` for two `str` values, scanning from the left. */
  function Contains(s: string, sub: string): (r: bool)
    ensures r ==> |sub| <= |s|
  {
    if |s| < |sub| then false
    else s[..|sub|] == sub || Contains(s[1..], sub)
  }

  /** Contains is exactly "occurs at some index". */
  lemma {:induction false} ContainsIffOccurs(s: string, sub: string)
    ensures Contains(s, sub) <==> exists i :: OccursAt(s, sub, i)
  {
    if |s| < |sub| {
    } else if s[..|sub|] == sub {
      assert OccursAt(s, sub, 0);
    } else {
      ContainsIffOccurs(s[1..], sub);
      if Contains(s[1..], sub) {
        var i :| OccursAt(s[1..], sub, i);
        assert s[1..][i..i + |sub|] == s[i + 1..i + 1 + |sub|];
        assert OccursAt(s, sub, i + 1);
      } else {
        forall i | OccursAt(s, sub, i) ensures false {
          if i > 0 {
            assert s[1..][i - 1..i - 1 + |sub|] == s[i..i + |sub|];
            assert OccursAt(s[1..], sub, i - 1);
          }
        }
      }
    }
  }

  /** Python's `s[:-n]` for a positive `n`: all but the last `n` characters, or "" when `s` is shorter. */
  function DropLast(s: string, n: nat): string
    requires n > 0
  {
    if |s| >= n then s[..|s| - n] else ""
  }

  /** `_msgtype2kind`: the base type name and the kind of a stored type name. */
  function MsgTypeToKind(name: string): (r: (string, string))
    ensures r.0 <= name
    ensures r.1 == ResponseKind ==> |r.0| == |name| - |ResponseWord|
    ensures r.1 == RequestKind ==> |r.0| == |name| - |RequestWord|
    ensures r.1 == MessageKind ==> r.0 == name
    ensures r.1 in {ResponseKind, RequestKind, MessageKind}
  {
    if Contains(name, ResponseWord) then (DropLast(name, 8), ResponseKind)
    else if Contains(name, RequestWord) then (DropLast(name, 7), RequestKind)
    else (name, MessageKind)
  }

  /**
   * "Response" anywhere in the name wins: the name then has at least 8
   * characters, the slice never falls back to "", and the last 8 are dropped.
   */
  lemma ResolvesResponse(name: string, i: int)
    requires OccursAt(name, ResponseWord, i)
    ensures |name| >= 8
    ensures MsgTypeToKind(name) == (name[..|name| - 8], ResponseKind)
  {
    ContainsIffOccurs(name, ResponseWord);
  }

  /** "Request" anywhere, and "Response" nowhere: the last 7 characters are dropped. */
  lemma ResolvesRequest(name: string, i: int)
    requires OccursAt(name, RequestWord, i)
    requires forall j :: !OccursAt(name, ResponseWord, j)
    ensures |name| >= 7
    ensures MsgTypeToKind(name) == (name[..|name| - 7], RequestKind)
  {
    ContainsIffOccurs(name, ResponseWord);
    ContainsIffOccurs(name, RequestWord);
  }

  /** Neither word anywhere: a plain message, the name unchanged. */
  lemma ResolvesMessage(name: string)
    requires forall j :: !OccursAt(name, ResponseWord, j)
    requires forall j :: !OccursAt(name, RequestWord, j)
    ensures MsgTypeToKind(name) == (name, MessageKind)
  {
    ContainsIffOccurs(name, ResponseWord);
    ContainsIffOccurs(name, RequestWord);
  }

  /** A response type name is its base name followed by "Response", and resolution gives the base back. */
  lemma ResponseNameRoundTrip(base: string)
    ensures MsgTypeToKind(base + ResponseWord) == (base, ResponseKind)
  {
    var name := base + ResponseWord;
    assert OccursAt(name, ResponseWord, |base|) by {
      assert name[|base|..|base| + 8] == ResponseWord;
    }
    ResolvesResponse(name, |base|);
    assert name[..|name| - 8] == base;
  }

  /** A request type name whose base does not mention "Response" resolves back to that base. */
  lemma RequestNameRoundTrip(base: string)
    requires forall j :: !OccursAt(base + RequestWord, ResponseWord, j)
    ensures MsgTypeToKind(base + RequestWord) == (base, RequestKind)
  {
    var name := base + RequestWord;
    assert OccursAt(name, RequestWord, |base|) by {
      assert name[|base|..|base| + 7] == RequestWord;
    }
    ResolvesRequest(name, |base|);
    assert name[..|name| - 7] == base;
  }

  /** No "Response" inside a base name means none straddles into an appended "Request". */
  lemma NoResponseAcrossRequest(base: string)
    requires forall j :: !OccursAt(base, ResponseWord, j)
    ensures forall j :: !OccursAt(base + RequestWord, ResponseWord, j)
  {
    var name := base + RequestWord;
    forall j ensures !OccursAt(name, ResponseWord, j) {
      if j < 0 || j + 8 > |name| {
      } else if j + 8 <= |base| {
        assert name[j..j + 8] == base[j..j + 8];
        assert !OccursAt(base, ResponseWord, j);
      } else {
        assert name[j..j + 8][|base| - j] == name[|base|] == 'R';
        assert ResponseWord[|base| - j] != 'R';
      }
    }
  }

  /** The three kinds on typical type names. */
  lemma ExampleNames()
    ensures MsgTypeToKind("pkg/Foo") == ("pkg/Foo", MessageKind)
    ensures MsgTypeToKind("pkg/FooRequest") == ("pkg/Foo", RequestKind)
    ensures MsgTypeToKind("pkg/FooResponse") == ("pkg/Foo", ResponseKind)
  {
    ResponseNameRoundTrip("pkg/Foo");
    assert "pkg/Foo" + ResponseWord == "pkg/FooResponse";
    NoResponseAcrossRequest("pkg/Foo");
    RequestNameRoundTrip("pkg/Foo");
    assert "pkg/Foo" + RequestWord == "pkg/FooRequest";
  }

  /** The type name stored for a message of base name `base` and kind `kind`. */
  function StoredName(base: string, kind: string): string {
    if kind == ResponseKind then base + ResponseWord
    else if kind == RequestKind then base + RequestWord
    else base
  }

  /**
   * As written, a plain message type that mentions "Response" before its end
   * is taken for a response and loses its last 8 characters.
   */
  lemma SubstringTestMangles()
    ensures MsgTypeToKind(StoredName("pkg/ResponseTime", MessageKind)) == ("pkg/Resp", ResponseKind)
  {
    var name := "pkg/ResponseTime";
    assert name[4..12] == ResponseWord;
    ResolvesResponse(name, 4);
    assert name[..|name| - 8] == "pkg/Resp";
  }

  /** Likewise a request type whose base name contains "Response" is taken for a response. */
  lemma RequestWithResponseMangles()
    ensures MsgTypeToKind(StoredName("pkg/GetResponseTime", RequestKind)) == ("pkg/GetResponseTim", ResponseKind)
  {
    var base := "pkg/GetResponseTime";
    assert base[7..15] == ResponseWord;
    var name := StoredName(base, RequestKind);
    assert name[7..15] == base[7..15];
    ResolvesResponse(name, 7);
    assert name[..|name| - 8] == base[..18];
    assert base[..18] == "pkg/GetResponseTim";
  }

  /**
   * The stored names that resolution gives back unchanged: every response
   * name, a request name whose base has no "Response", and a message name
   * with neither word in it.
   */
  ghost predicate ResolvesBack(base: string, kind: string) {
    || kind == ResponseKind
    || (kind == RequestKind && forall j :: !OccursAt(base, ResponseWord, j))
    || (kind == MessageKind &&
        (forall j :: !OccursAt(base, ResponseWord, j)) &&
        (forall j :: !OccursAt(base, RequestWord, j)))
  }

  /** Resolution recovers (base, kind) from the stored name exactly when ResolvesBack holds. */
  lemma StoredNameResolves(base: string, kind: string)
    ensures MsgTypeToKind(StoredName(base, kind)) == (base, kind) <==> ResolvesBack(base, kind)
  {
    var name := StoredName(base, kind);
    if kind == ResponseKind {
      ResponseNameRoundTrip(base);
    } else if kind == RequestKind {
      if forall j :: !OccursAt(base, ResponseWord, j) {
        NoResponseAcrossRequest(base);
        RequestNameRoundTrip(base);
      } else {
        var j :| OccursAt(base, ResponseWord, j);
        assert name[j..j + 8] == base[j..j + 8];
        ResolvesResponse(name, j);
      }
    } else if kind == MessageKind {
      if forall j :: !OccursAt(base, ResponseWord, j) {
        if forall j :: !OccursAt(base, RequestWord, j) {
          ResolvesMessage(base);
        } else {
          var j :| OccursAt(base, RequestWord, j);
          ResolvesRequest(base, j);
        }
      } else {
        var j :| OccursAt(base, ResponseWord, j);
        ResolvesResponse(base, j);
      }
    }
  }

  /** `s` ends with `suffix`. */
  predicate EndsWith(s: string, suffix: string) {
    |suffix| <= |s| && s[|s| - |suffix|..] == suffix
  }

  /** Resolution by suffix, as the kinds are meant: only a trailing "Response" or "Request" marks a service type. */
  function MsgTypeToKindBySuffix(name: string): (r: (string, string))
    ensures r.1 in {ResponseKind, RequestKind, MessageKind}
    ensures StoredName(r.0, r.1) == name
  {
    if EndsWith(name, ResponseWord) then (name[..|name| - 8], ResponseKind)
    else if EndsWith(name, RequestWord) then (name[..|name| - 7], RequestKind)
    else (name, MessageKind)
  }

  /** Resolution by suffix recovers the base name and kind of every stored name, except a message name ending in either word. */
  lemma BySuffixRoundTrip(base: string, kind: string)
    requires kind in {ResponseKind, RequestKind, MessageKind}
    requires kind == MessageKind ==> !EndsWith(base, ResponseWord) && !EndsWith(base, RequestWord)
    ensures MsgTypeToKindBySuffix(StoredName(base, kind)) == (base, kind)
  {
    var name := StoredName(base, kind);
    if kind == ResponseKind {
      assert name[|name| - 8..] == ResponseWord;
      assert name[..|name| - 8] == base;
    } else if kind == RequestKind {
      assert name[|name| - 7..] == RequestWord;
      assert name[|name| - 1] != ResponseWord[7];
      assert name[..|name| - 7] == base;
    }
  }

  /** On names where neither word occurs in the base, the two resolutions agree. */
  lemma BySuffixAgreesOnPlainBases(base: string, kind: string)
    requires kind in {ResponseKind, RequestKind, MessageKind}
    requires forall j :: !OccursAt(base, ResponseWord, j)
    requires forall j :: !OccursAt(base, RequestWord, j)
    ensures MsgTypeToKind(StoredName(base, kind)) == (base, kind)
    ensures MsgTypeToKindBySuffix(StoredName(base, kind)) == (base, kind)
  {
    if kind == ResponseKind {
      ResponseNameRoundTrip(base);
    } else if kind == RequestKind {
      NoResponseAcrossRequest(base);
      RequestNameRoundTrip(base);
    } else {
      ResolvesMessage(base);
      if EndsWith(base, ResponseWord) {
        assert OccursAt(base, ResponseWord, |base| - 8);
      }
      if EndsWith(base, RequestWord) {
        assert OccursAt(base, RequestWord, |base| - 7);
      }
    }
    BySuffixRoundTrip(base, kind);
  }
}
