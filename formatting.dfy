/**
 * Leaf normalization, `_string_formatting` in src/ros_msgdict/msgdict.py:
 * every value of a dict that is itself a dict is normalized recursively,
 * every `unicode` value becomes a `str` with the same text, and everything
 * else (lists included, which are not walked) is left as it is.
 */
module StringFormat {
  import opened PyValues

  /** What `_string_formatting` leaves under one key whose value was `v`. */
  function FormatValue(v: Value): (r: Value)
    ensures r.Dict? <==> v.Dict?
    ensures v.Dict? ==> r.entries.Keys == v.entries.Keys
    ensures v.Str? ==> r == Str(v.s, false)
    ensures !v.Dict? && !v.Str? ==> r == v
  {
    match v
    case Dict(e) => Dict(map k | k in e :: FormatValue(e[k]))
    case Str(s, _) => Str(s, false)
    case _ => v
  }

  /** The dict `_string_formatting(d)` returns. */
  function Formatted(d: map<string, Value>): (r: map<string, Value>)
    ensures r.Keys == d.Keys
  {
    FormatValue(Dict(d)).entries
  }

  /**
   * No `unicode` value is left at the top or in any nested dict; lists are
   * not looked into, since normalization does not walk them.
   */
  predicate Canonical(v: Value) {
    match v
    case Dict(e) => forall k :: k in e ==> Canonical(e[k])
    case Str(_, u) => !u
    case _ => true
  }

  /** The value with every text tag cleared, inside lists and dicts alike: the text, not its encoding. */
  function Text(v: Value): Value {
    match v
    case Str(s, _) => Str(s, false)
    case List(xs) => List(seq(|xs|, i requires 0 <= i < |xs| => Text(xs[i])))
    case Dict(e) => Dict(map k | k in e :: Text(e[k]))
    case _ => v
  }

  /** After normalization nothing is left to normalize. */
  lemma {:induction false} FormatValueCanonical(v: Value)
    ensures Canonical(FormatValue(v))
  {
    match v
    case Dict(e) =>
      forall k | k in e ensures Canonical(FormatValue(v).entries[k]) {
        FormatValueCanonical(e[k]);
      }
    case _ =>
  }

  /** A canonical value is left exactly as it is. */
  lemma {:induction false} FormatValueFixesCanonical(v: Value)
    requires Canonical(v)
    ensures FormatValue(v) == v
  {
    match v
    case Dict(e) =>
      forall k | k in e ensures FormatValue(v).entries[k] == e[k] {
        FormatValueFixesCanonical(e[k]);
      }
      assert FormatValue(v).entries == e;
    case _ =>
  }

  /** Normalization is idempotent. */
  lemma FormattedIdempotent(d: map<string, Value>)
    ensures Formatted(Formatted(d)) == Formatted(d)
  {
    FormatValueCanonical(Dict(d));
    FormatValueFixesCanonical(FormatValue(Dict(d)));
  }

  /** Normalization changes encodings only, never the text or the shape of the tree. */
  lemma {:induction false} FormatValuePreservesText(v: Value)
    ensures Text(FormatValue(v)) == Text(v)
  {
    match v
    case Dict(e) =>
      var f := FormatValue(v).entries;
      forall k | k in e ensures Text(f[k]) == Text(e[k]) {
        FormatValuePreservesText(e[k]);
      }
      assert Text(FormatValue(v)).entries == Text(v).entries;
    case _ =>
  }

  /** The value reached from `v` by following the dict keys in `path`, if every step is a dict holding that key. */
  function At(v: Value, path: seq<string>): Option<Value> {
    if path == [] then Some(v)
    else match v
      case Dict(e) => if path[0] in e then At(e[path[0]], path[1..]) else None
      case _ => None
  }

  /**
   * Normalization acts on each value reachable through dicts and nowhere else:
   * the same paths exist afterwards, each leading to the normalized value, so
   * a list, number, boolean, None or message at any depth is left unchanged
   * (and nothing inside a list is touched).
   */
  lemma {:induction false} FormatValueAt(v: Value, path: seq<string>)
    ensures At(FormatValue(v), path).Some? <==> At(v, path).Some?
    ensures At(v, path).Some? ==> At(FormatValue(v), path) == Some(FormatValue(At(v, path).value))
    ensures At(v, path).Some? && !At(v, path).value.Dict? && !At(v, path).value.Str? ==>
      At(FormatValue(v), path) == At(v, path)
  {
    if path != [] && v.Dict? && path[0] in v.entries {
      FormatValueAt(v.entries[path[0]], path[1..]);
    }
  }

  /**
   * `_string_formatting`: rewrites the value under every key, recursing into
   * nested dicts; the keys are visited in whatever order the dict yields them.
   */
  method StringFormatting(d: map<string, Value>) returns (r: map<string, Value>)
    ensures r == Formatted(d)
    decreases Dict(d)
  {
    r := d;
    var todo := d.Keys;
    while todo != {}
      invariant todo <= d.Keys
      invariant r.Keys == d.Keys
      invariant forall k :: k in todo ==> r[k] == d[k]
      invariant forall k :: k in d && k !in todo ==> r[k] == FormatValue(d[k])
      decreases todo
    {
      var key :| key in todo;
      var val := r[key];
      if val.Dict? {
        assert val == d[key];
        var inner := StringFormatting(val.entries);
        r := r[key := Dict(inner)];
      } else if val.Str? && val.isUnicode {
        r := r[key := Str(val.s, false)];
      }
      todo := todo - {key};
    }
  }
}
