# ros_msgdict conversion layer, modelled in Dafny

ros_msgdict saves a dictionary of ROS messages to a YAML file or to the ROS
parameter server and loads it back. To do that, `src/ros_msgdict/msgdict.py`
turns a dict of messages into a dict of envelopes
`{"type": <message type name>, "dict": <plain tree of the fields>}`, and
turns such a dict back into messages. This project models that conversion
layer:

- `MsgType` (msgtype.dfy): `_msgtype2kind`. It splits a stored type name into
  the base name the registry resolves and a kind: `"response"`, `"request"` or
  `"message"`. The test is substring containment (`"Response" in name`), and
  "Response" is checked before "Request". On a match the last 8 (or 7)
  characters are dropped, as Python's `name[:-8]` does.
- `StringFormat` (formatting.dfy): `_string_formatting`. Every `unicode` value
  becomes a `str`, at the top level and in nested dicts. Lists are not walked.
- `MsgDict` (msgdict.dfy): the validators `_check_dict_format` and
  `_check_msgdict_format`, and the two transcoders `_dict2msgdict` and
  `_msgdict2_dict`. Each one is a method with the source's loop and early
  returns, proved against a specification function.
- `PyValues` (values.dfy): the Python values involved. `Str` carries an
  `isUnicode` tag for the Python 2 `str`/`unicode` split. Messages are
  `RosMessage` values with their `_type`. `Outcome` says whether a call
  returned or raised.

The code targets Python 2: it uses `"unicode" in str(type(val))`, and the
example script uses `cmp`. So `isinstance(x, str)` is false for a `unicode`
value. The validator therefore accepts a `"type"` only when it is a plain
`str`.

The two directions of `rospy_message_converter` are external. They are
parameters: `MessageToDict`, and `DictToMessage`, which gives `None` where the
Python converter raises. The order in which a Python dict yields its keys is
also a parameter (`order`, each key exactly once). It decides one thing only:
when several entries of a loaded dict are malformed, `_check_dict_format`
either returns False or raises `AttributeError`, depending on which bad entry
comes first. Calling `.keys()` on an entry that is not a dict raises. The
model gives that crash as `Raised(AttributeError(key))`, not as False.
`_string_formatting` gives the same result in any order. Its method picks the
next key with `:|`, so its contract holds for every order.

Conventions of the code that the model keeps:
- the payload key of an envelope is `"dict"`;
- the kind test is containment, not a suffix test (see Findings);
- a failed check or conversion gives back `None`, not a typed error;
- a loaded entry that is not a dict crashes the shape check;
- `_msgdict2_dict` returns `None` for a collection that holds a non-message
  value, by falling off the end.

## Model

| member | source | states |
|---|---|---|
| MsgType.Contains | src/ros_msgdict/msgdict.py:168 | Python's `sub in s`; when true, `s` is at least as long as `sub` |
| MsgType.ContainsIffOccurs | src/ros_msgdict/msgdict.py:168 | the containment test is true exactly when `sub` occurs at some index of `s` |
| MsgType.MsgTypeToKind | src/ros_msgdict/msgdict.py:159-174 | the base name is a prefix of the type name: 8 characters shorter for "response", 7 for "request", the whole name for "message"; the kind is one of the three strings |
| MsgType.ResolvesResponse | src/ros_msgdict/msgdict.py:168-169 | "Response" occurring at any index means the name has at least 8 characters, and the result is (name without its last 8, "response") |
| MsgType.ResolvesRequest | src/ros_msgdict/msgdict.py:171-172 | "Request" anywhere and "Response" nowhere means at least 7 characters, and the result is (name without its last 7, "request") |
| MsgType.ResolvesMessage | src/ros_msgdict/msgdict.py:174 | neither word anywhere gives (name, "message") |
| MsgType.ResponseNameRoundTrip | src/ros_msgdict/msgdict.py:168-169 | a name made of a base and "Response" resolves to that base with kind "response" |
| MsgType.RequestNameRoundTrip | src/ros_msgdict/msgdict.py:171-172 | a name made of a base and "Request", with no "Response" in it, resolves to that base with kind "request" |
| MsgType.NoResponseAcrossRequest | src/ros_msgdict/msgdict.py:168-172 | if a base has no "Response" in it, appending "Request" creates none, so the Request branch is taken |
| MsgType.ExampleNames | src/ros_msgdict/msgdict.py:159-174 | "pkg/Foo", "pkg/FooRequest" and "pkg/FooResponse" resolve to base "pkg/Foo" with kinds message, request and response |
| MsgType.SubstringTestMangles | src/ros_msgdict/msgdict.py:168-169 | the plain message type "pkg/ResponseTime" resolves to ("pkg/Resp", "response"), not to itself as a message |
| MsgType.RequestWithResponseMangles | src/ros_msgdict/msgdict.py:168-172 | the request type "pkg/GetResponseTimeRequest" resolves to ("pkg/GetResponseTim", "response"): the Response test fires first |
| MsgType.StoredNameResolves | src/ros_msgdict/msgdict.py:159-174 | resolving the stored name of (base, kind) gives back (base, kind) exactly when the kind is "response", or it is "request" and the base has no "Response", or it is "message" and the base has neither word |
| MsgType.MsgTypeToKindBySuffix | src/ros_msgdict/msgdict.py:168-174 | suffix-based resolution: appending the kind's suffix to the base name rebuilds the input |
| MsgType.BySuffixRoundTrip | src/ros_msgdict/msgdict.py:168-174 | suffix-based resolution recovers (base, kind) from every stored name, for a message base that does not end in either word |
| MsgType.BySuffixAgreesOnPlainBases | src/ros_msgdict/msgdict.py:168-174 | if the base contains neither word, the as-written and the suffix-based resolutions both return (base, kind) |
| StringFormat.FormatValue | src/ros_msgdict/msgdict.py:150-156 | a dict stays a dict with the same keys; every string becomes a plain str with the same text; lists, numbers, booleans, None and messages are unchanged |
| StringFormat.Formatted | src/ros_msgdict/msgdict.py:148-156 | normalizing a dict keeps its key set |
| StringFormat.FormatValueCanonical | src/ros_msgdict/msgdict.py:150-156 | no unicode value is left at the top level or in any nested dict |
| StringFormat.FormatValueFixesCanonical | src/ros_msgdict/msgdict.py:150-156 | a value with no unicode leaf outside lists is returned unchanged |
| StringFormat.FormattedIdempotent | src/ros_msgdict/msgdict.py:148-156 | normalizing twice gives the same result as normalizing once |
| StringFormat.FormatValuePreservesText | src/ros_msgdict/msgdict.py:150-156 | only the str/unicode tags change: the text, the keys and the tree shape stay the same |
| StringFormat.FormatValueAt | src/ros_msgdict/msgdict.py:150-156 | every path of dict keys exists after normalization exactly when it existed before, and leads to the normalized value; a list, number, boolean, None or message at any depth is unchanged, so lists are never walked |
| StringFormat.StringFormatting | src/ros_msgdict/msgdict.py:148-156 | the loop, with its recursion into nested dicts, returns the normalized dict whatever order it visits the keys in |
| MsgDict.FirstOffending | src/ros_msgdict/msgdict.py:75-85 | every entry before the returned position is a well-formed envelope; the entry at that position, if any, is not |
| MsgDict.DictFormatVerdict | src/ros_msgdict/msgdict.py:68-85 | True exactly when every entry is a dict with key set {"type","dict"}, a str under "type" and a dict under "dict"; False only when some dict entry is malformed; a raise names a key whose value is not a dict; no raise when every value is a dict |
| MsgDict.CheckDictFormat | src/ros_msgdict/msgdict.py:68-85 | the loop with early returns returns or raises exactly what the first offending entry in iteration order decides |
| MsgDict.CheckMsgDictFormat | src/ros_msgdict/msgdict.py:88-101 | returns true exactly when every value in the collection is a message |
| MsgDict.DecodeCollectionAllOrNothing | src/ros_msgdict/msgdict.py:104-125 | it raises only when the shape check raises; it returns None exactly when the check fails or some entry fails to convert; on success every key is kept, each holding its converted entry |
| MsgDict.DecodeFailsAt | src/ros_msgdict/msgdict.py:116-122 | one failed conversion gives None for the whole collection, never a partial dict |
| MsgDict.DecodeSucceedsWith | src/ros_msgdict/msgdict.py:114-123 | the dict the loop builds, with each key's converted entry, is the result |
| MsgDict.DictToMsgDict | src/ros_msgdict/msgdict.py:104-125 | validate first; then convert each entry with the converter, applied to the resolved (base, kind) and the entry's "dict"; return None at the first failure |
| MsgDict.EncodeEntry | src/ros_msgdict/msgdict.py:141-144 | the envelope is well-formed; its "type" is the message's `_type`; its "dict" has no unicode leaves outside lists |
| MsgDict.EncodeCollection | src/ros_msgdict/msgdict.py:128-145 | None exactly when some value is not a message; otherwise the same key set, and every value a well-formed envelope |
| MsgDict.EncodeSucceedsWith | src/ros_msgdict/msgdict.py:138-145 | the dict the loop builds, with each key's envelope, is the result |
| MsgDict.MsgDictToDict | src/ros_msgdict/msgdict.py:128-145 | validate, then build `{key: {"type": msg._type, "dict": normalized(convert(msg))}}`, calling the normalization method per entry |
| MsgDict.EncodedPassesFormatCheck | src/ros_msgdict/msgdict.py:68-85 | what the encoder produces passes the loader's shape check in any key order |
| MsgDict.EntryRoundTrip | src/ros_msgdict/msgdict.py:116-119 | if `_type` is the stored name of a base and kind that resolution gives back (any response; a request whose base has no "Response"; a message whose base has neither word), and the registry, asked for that base and kind, inverts the encoder up to normalization, then one message survives encoding into an envelope and decoding back; loading resolves the right base and kind, and the proof shows it |
| MsgDict.CollectionRoundTrip | src/ros_msgdict/msgdict.py:104-145 | under that condition on every message, saving a dict of messages and loading it back gives the same messages under the same keys, in any key order |
| MsgDict.MangledTypeDefeatsRoundTrip | src/ros_msgdict/msgdict.py:116-122 | a collection holding the plain message type "pkg/ResponseTime" does not load back, even when the registry inverts the encoder on that type: loading asks for the response "pkg/Resp", and if the registry has no such type the whole call returns None |

## Left out

- `msgdict2yaml`, `yaml2msgdict`, `msgdict2params` and `params2msgdict` (msgdict.py:9-65) are not modelled. They do file, YAML and parameter-server I/O. This includes the unbound `yaml_dict` after a `YAMLError`, and writing `null` when the encoder returns None.
- The top-level value given to `_dict2msgdict` is a dict of string keys in the model. A loaded document that is not a dict, such as None from an empty file, would crash on `.keys()`; that case is not modelled. Non-string YAML keys are not modelled either.
- `message_converter` and `genpy.Message` internals are not modelled. They are foreign libraries and appear only as function parameters and the `Msg` tag. Every exception of `convert_dictionary_to_ros_message` is the same `None`.
- MsgDict.MsgDictToDict: an exception raised by `convert_ros_message_to_dictionary` is not modelled. The source does not catch it, so it would propagate; the converter parameter is total.
- StringFormat.FormatValue: does not model the `UnicodeEncodeError` that Python 2's `str()` raises on non-ASCII `unicode` text. Every unicode leaf is taken to convert.
- StringFormat.StringFormatting: works on values and returns the new dict. It does not model the in-place update of the caller's dict objects or any aliasing between them. In `_msgdict2_dict` the dict it changes is the one the converter has just returned, which nothing else references, and it is stored as the envelope's `"dict"` (msgdict.py:141-144). So the in-place change cannot be observed through another reference, and the returned value is what the model gives.
- The `print` diagnostics (msgdict.py:77, 80, 83, 99, 121, 140) are not modelled; they are console output only.
- Numbers: floats are mathematical reals, and integer width plays no part.
- `src/ros_msg2param/example.py` is not modelled. It is a demo script that needs a running ROS node and has no logic of its own.

## Findings

| source | as written | input that shows it | evidently intended | confidence | as-written member | corrected member |
|---|---|---|---|---|---|---|
| src/ros_msgdict/msgdict.py:168-172 | `"Response" in msg_name` / `"Request" in msg_name` test containment, then drop the last 8 / 7 characters | the plain message type "pkg/ResponseTime" resolves to ("pkg/Resp", "response"); the request "pkg/GetResponseTimeRequest" to ("pkg/GetResponseTim", "response") | only a trailing "Response" / "Request" marks a service type | medium, not executed | MsgDict.MangledTypeDefeatsRoundTrip | MsgType.MsgTypeToKindBySuffix |

`SubstringTestMangles` shows the wrong resolution of that one name, and
`MangledTypeDefeatsRoundTrip` shows what it does when a collection is loaded.
`RequestWithResponseMangles` shows the same for a request type whose base
name contains "Response". `StoredNameResolves` gives the exact set of stored
names that resolve back to their own base and kind: every response name, a
request name whose base has no "Response", and a message name whose base has
neither word. The round-trip lemmas `EntryRoundTrip` and `CollectionRoundTrip`
take that set as their condition. The corrected resolution,
`MsgTypeToKindBySuffix`, recovers (base, kind) from every stored name except
message types whose name ends in "Response" or "Request"
(`BySuffixRoundTrip`). The collection transcoders keep the
as-written `MsgTypeToKind`, because that is what `_dict2msgdict` does when
loading. `BySuffixAgreesOnPlainBases` shows that the two give the same answer
whenever the base name contains neither word.
