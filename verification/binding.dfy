/**
 * JSONPath-like binding expressions of the template engine (`$.a.b`,
 * `$.items[0].name`) resolved against a JSON value, and the conversion of
 * a resolved value to the text a block renders.
 */
module Binding {
  import opened Results
  import opened Strs

  /** A JSON value; numbers are kept as their exact value. */
  datatype Json =
    | JNull
    | JBool(b: bool)
    | JNumber(n: real)
    | JString(s: string)
    | JArray(items: seq<Json>)
    | JObject(fields: map<string, Json>)

  /** `Value::get` with a key: objects only. */
  function Get(v: Json, key: string): (r: Option<Json>)
    ensures r.Some? <==> v.JObject? && key in v.fields
  {
    if v.JObject? && key in v.fields then Some(v.fields[key]) else None
  }

  /** `Value::get` with an index: arrays only. */
  function At(v: Json, i: nat): (r: Option<Json>)
    ensures r.Some? <==> v.JArray? && i < |v.items|
  {
    if v.JArray? && i < |v.items| then Some(v.items[i]) else None
  }

  /** `usize` on a 64-bit target. */
  const UsizeLimit: nat := 0x1_0000_0000_0000_0000

  /** The position of the first `c` in `s` (`str::find` on a char). */
  function Find(s: string, c: char): (r: Option<nat>)
    ensures r.None? <==> c !in s
    ensures r.Some? ==> r.value < |s| && s[r.value] == c && c !in s[..r.value]
  {
    if |s| == 0 then None
    else if s[0] == c then Some(0)
    else
      match Find(s[1..], c)
      case None => None
      case Some(k) =>
        assert s[..k + 1] == [s[0]] + s[1..][..k];
        Some(k + 1)
  }

  /**
   * A segment with a '[' whose index slice `seg[b + 1 .. len - 1]` cannot
   * be taken: the '[' is the last character (start after end), or the last
   * character is more than one UTF-8 byte long (end inside a character).
   */
  predicate BadSlice(seg: string, b: nat)
    requires b < |seg|
  {
    b + 1 == |seg| || Utf8Len(seg[|seg| - 1]) > 1
  }

  /**
   * The text between the '[' at `b` and the segment's last character. The
   * last character is dropped whatever it is, so `a[1]` and `a[1x` both
   * read index "1".
   */
  function IndexText(seg: string, b: nat): (r: string)
    requires b < |seg| && !BadSlice(seg, b)
    ensures |r| + b + 2 == |seg|
  {
    seg[b + 1..|seg| - 1]
  }

  /** Field then index: an empty field name keeps the current value. */
  function FieldIndex(v: Json, field: string, i: nat): (r: Option<Json>)
  {
    var base := if field == [] then Some(v) else Get(v, field);
    match base
    case None => None
    case Some(w) => At(w, i)
  }

  /**
   * One segment applied to `v`. A segment without '[' is an object key; one
   * with a '[' at its first occurrence `b` is an optional field name
   * `seg[..b]` and a `usize` index. A segment whose index slice cannot be
   * taken resolves to nothing.
   */
  function Step(seg: string, v: Json): (r: Option<Json>)
    ensures '[' !in seg ==> r == Get(v, seg)
  {
    match Find(seg, '[')
    case None => Get(v, seg)
    case Some(b) =>
      if BadSlice(seg, b) then None
      else
        match ParseUnsigned(IndexText(seg, b), UsizeLimit)
        case None => None
        case Some(i) => FieldIndex(v, seg[..b], i)
  }

  function Walk(segs: seq<string>, v: Json): (r: Option<Json>)
  {
    if segs == [] then Some(v)
    else
      match Step(segs[0], v)
      case None => None
      case Some(w) => Walk(segs[1..], w)
  }

  predicate HasRoot(path: string)
  {
    |path| >= 2 && path[..2] == "$."
  }

  /**
   * Resolves a binding path: after "$.", the '.'-separated segments are
   * applied left to right, and resolution stops with nothing at the first
   * segment that finds nothing.
   */
  function ResolveBinding(path: string, data: Json): (r: Option<Json>)
    ensures !HasRoot(path) ==> r == None
    ensures HasRoot(path) ==> r == Walk(Split(path[2..], '.'), data)
  {
    if HasRoot(path) then Walk(Split(path[2..], '.'), data) else None
  }

  /** What the source's resolution can do: find a value, find none, or panic. */
  datatype Outcome = Found(value: Json) | Missing | Panic
  {
    function ToOption(): Option<Json>
      requires !Panic?
    {
      if Found? then Some(value) else None
    }
  }

  /** One segment as written: an index slice that cannot be taken panics. */
  function StepAsWritten(seg: string, v: Json): (r: Outcome)
    ensures r.Panic? <==> (var f := Find(seg, '['); f.Some? && BadSlice(seg, f.value))
  {
    match Find(seg, '[')
    case None => if Get(v, seg).Some? then Found(Get(v, seg).value) else Missing
    case Some(b) =>
      if BadSlice(seg, b) then Panic
      else
        match ParseUnsigned(IndexText(seg, b), UsizeLimit)
        case None => Missing
        case Some(i) =>
          var w := FieldIndex(v, seg[..b], i);
          if w.Some? then Found(w.value) else Missing
  }

  function WalkAsWritten(segs: seq<string>, v: Json): (r: Outcome)
  {
    if segs == [] then Found(v)
    else
      match StepAsWritten(segs[0], v)
      case Panic => Panic
      case Missing => Missing
      case Found(w) => WalkAsWritten(segs[1..], w)
  }

  function ResolveAsWritten(path: string, data: Json): (r: Outcome)
    ensures !HasRoot(path) ==> r == Missing
  {
    if HasRoot(path) then WalkAsWritten(Split(path[2..], '.'), data) else Missing
  }

  lemma {:induction false} WalkAgrees(segs: seq<string>, v: Json)
    requires !WalkAsWritten(segs, v).Panic?
    ensures WalkAsWritten(segs, v).ToOption() == Walk(segs, v)
  {
    if segs != [] {
      var o := StepAsWritten(segs[0], v);
      assert o.ToOption() == Step(segs[0], v);
      if o.Found? {
        WalkAgrees(segs[1..], o.value);
      }
    }
  }

  /**
   * Whenever the source does not panic, it resolves exactly what
   * `ResolveBinding` resolves.
   */
  lemma ResolveAgrees(path: string, data: Json)
    requires !ResolveAsWritten(path, data).Panic?
    ensures ResolveAsWritten(path, data).ToOption() == ResolveBinding(path, data)
  {
    if HasRoot(path) {
      WalkAgrees(Split(path[2..], '.'), data);
    }
  }

  /**
   * A path whose segment ends in '[' reaches the slice `seg[2..1]` and
   * panics; `ResolveBinding` reports it as unresolved.
   */
  lemma OpenBracketPanics(data: Json)
    ensures ResolveAsWritten("$.a[", data) == Panic
    ensures ResolveBinding("$.a[", data) == None
  {
    var path := "$.a[";
    assert path[..2] == "$.";
    assert path[2..] == "a[";
    SplitNoSep("a[", '.');
    assert Find("a[", '[') == Some(1) by {
      assert "a["[1..] == "[";
    }
  }

  /** A segment naming a plain key. */
  predicate PlainKey(a: string)
  {
    '.' !in a && '[' !in a
  }

  /**
   * Resolution is compositional: "$.a.rest" on `data` is "$.rest" on the
   * value under key `a`, and nothing when that key is missing.
   */
  lemma ResolveCompose(a: string, rest: string, data: Json)
    requires PlainKey(a)
    ensures ResolveBinding("$." + a + "." + rest, data) ==
      match Get(data, a)
      case None => None
      case Some(w) => ResolveBinding("$." + rest, w)
  {
    var path := "$." + a + "." + rest;
    assert path[..2] == "$.";
    assert path[2..] == a + ['.'] + rest;
    SplitPrefix(a, rest, '.');
    var segs := Split(path[2..], '.');
    assert segs[0] == a && segs[1..] == Split(rest, '.');
    var p2 := "$." + rest;
    assert p2[..2] == "$." && p2[2..] == rest;
  }

  /** "$.a.b" is `data[a][b]`, and nothing as soon as a key is missing. */
  lemma ResolveTwoKeys(a: string, b: string, data: Json)
    requires PlainKey(a) && PlainKey(b)
    ensures ResolveBinding("$." + a + "." + b, data) ==
      match Get(data, a)
      case None => None
      case Some(w) => Get(w, b)
  {
    ResolveCompose(a, b, data);
    var p := "$." + b;
    assert p[..2] == "$." && p[2..] == b;
    SplitNoSep(b, '.');
    if Get(data, a).Some? {
      var w := Get(data, a).value;
      assert Walk([b], w) == Step(b, w);
    }
  }

  /** A path of a single segment applies that segment to the root. */
  lemma ResolveSingle(seg: string, data: Json)
    requires '.' !in seg
    ensures ResolveBinding("$." + seg, data) == Step(seg, data)
  {
    var path := "$." + seg;
    assert path[..2] == "$." && path[2..] == seg;
    SplitNoSep(seg, '.');
    assert Walk([seg], data) == Step(seg, data);
  }

  /** The segment "f[t]" parses `t` as the index of field `f`. */
  lemma StepIndexed(f: string, t: string, v: Json)
    requires '[' !in f
    ensures Step(f + "[" + t + "]", v) ==
      match ParseUnsigned(t, UsizeLimit)
      case None => None
      case Some(i) => FieldIndex(v, f, i)
  {
    var seg := f + "[" + t + "]";
    assert seg == f + ("[" + t + "]");
    FindAfter(f, "[" + t + "]");
    assert seg[..|f|] == f;
    assert seg[|seg| - 1] == ']';
    assert IndexText(seg, |f|) == t;
  }

  /**
   * "$.f[i]" looks up field `f` (skipped when empty) and then element `i`;
   * digits that overflow `usize` give nothing.
   */
  lemma ResolveIndexed(f: string, i: nat, data: Json)
    requires PlainKey(f)
    ensures ResolveBinding("$." + f + "[" + NatToString(i) + "]", data) ==
      if i < UsizeLimit then FieldIndex(data, f, i) else None
  {
    var digits := NatToString(i);
    var seg := f + "[" + digits + "]";
    assert '.' !in seg by {
      assert '.' !in digits by {
        forall k | 0 <= k < |digits| ensures digits[k] != '.' {
          assert IsDigit(digits[k]);
        }
      }
      assert seg == f + ("[" + digits + "]");
    }
    assert "$." + f + "[" + digits + "]" == "$." + seg;
    ResolveSingle(seg, data);
    StepIndexed(f, digits, data);
    if i < UsizeLimit {
      ParseNatToString(i, UsizeLimit);
    } else {
      assert ParseUnsigned(digits, UsizeLimit) == None by {
        DigitsValueNatToString(i);
        assert DropSign(digits, '+') == digits by {
          assert IsDigit(digits[0]);
        }
      }
    }
  }

  lemma FindAfter(f: string, t: string)
    requires '[' !in f && |t| > 0 && t[0] == '['
    ensures Find(f + t, '[') == Some(|f|)
  {
    var s := f + t;
    assert s[|f|] == '[';
    assert s[..|f|] == f;
  }

  /** An index that is not a decimal number resolves to nothing. */
  lemma NonNumericIndex(f: string, junk: string, data: Json)
    requires PlainKey(f) && '.' !in junk
    requires |junk| > 0 && !IsDigit(junk[0]) && junk[0] != '+'
    ensures ResolveBinding("$." + f + "[" + junk + "]", data) == None
  {
    var seg := f + "[" + junk + "]";
    assert '.' !in seg by {
      assert seg == f + ("[" + junk + "]");
    }
    assert "$." + f + "[" + junk + "]" == "$." + seg;
    ResolveSingle(seg, data);
    StepIndexed(f, junk, data);
    assert ParseUnsigned(junk, UsizeLimit) == None by {
      assert DropSign(junk, '+') == junk;
      assert !IsDigit(junk[0]);
    }
  }

  // ---------------------------------------------------------------------
  // Rendering a resolved value
  // ---------------------------------------------------------------------

  /**
   * The text of a resolved value: a string's own contents, "" for null,
   * "true"/"false" for booleans. Numbers, arrays and objects are printed
   * by `serialize`, which stands for serde_json's `Display`.
   */
  function ValueToString(v: Json, serialize: Json -> string): (r: string)
    ensures v.JString? ==> r == v.s
    ensures v.JNull? ==> r == ""
    ensures v.JBool? ==> (r == "true" <==> v.b) && (r == "false" <==> !v.b)
    ensures v.JNumber? || v.JArray? || v.JObject? ==> r == serialize(v)
  {
    match v
    case JString(s) => s
    case JNull => ""
    case JBool(b) => if b then "true" else "false"
    case _ => serialize(v)
  }
}
