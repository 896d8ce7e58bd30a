/**
 * String helpers standing in for the parts of Rust's `str`, `char` and
 * integer formatting that the modelled crates rely on. Strings are
 * sequences of Unicode scalar values.
 */
module Strs {
  import opened Results

  // ---------------------------------------------------------------------
  // Concatenation and joining
  // ---------------------------------------------------------------------

  /** All pieces glued together in order (`concat`). */
  function Concat<T>(ss: seq<seq<T>>): (r: seq<T>)
    ensures |r| == LengthSum(ss)
  {
    if |ss| == 0 then [] else ss[0] + Concat(ss[1..])
  }

  /** Total length of a list of sequences. */
  function LengthSum<T>(ss: seq<seq<T>>): nat
  {
    if |ss| == 0 then 0 else |ss[0]| + LengthSum(ss[1..])
  }

  lemma {:induction false} ConcatAppend<T>(a: seq<seq<T>>, b: seq<seq<T>>)
    ensures Concat(a + b) == Concat(a) + Concat(b)
  {
    if |a| == 0 {
      assert a + b == b;
    } else {
      assert (a + b)[1..] == a[1..] + b;
      ConcatAppend(a[1..], b);
    }
  }

  /** Pieces all of length `n` have `|ss| * n` elements together. */
  lemma {:induction false} LengthSumUniform<T>(ss: seq<seq<T>>, n: nat)
    requires forall i | 0 <= i < |ss| :: |ss[i]| == n
    ensures LengthSum(ss) == |ss| * n
  {
    if |ss| > 0 {
      LengthSumUniform(ss[1..], n);
      MulStep(|ss|, n);
    }
  }

  /** With pieces all of length `n`, element `k` of piece `j` sits at `j * n + k`. */
  lemma {:induction false} ConcatUniform<T>(ss: seq<seq<T>>, n: nat, j: nat, k: nat)
    requires forall i | 0 <= i < |ss| :: |ss[i]| == n
    requires j < |ss| && k < n
    ensures |Concat(ss)| == |ss| * n
    ensures j * n + k < |Concat(ss)|
    ensures Concat(ss)[j * n + k] == ss[j][k]
  {
    LengthSumUniform(ss, n);
    MulBound(j, |ss|, n, k);
    if j > 0 {
      ConcatUniform(ss[1..], n, j - 1, k);
      MulStep(j, n);
      assert Concat(ss) == ss[0] + Concat(ss[1..]);
      assert j * n + k == |ss[0]| + ((j - 1) * n + k);
    }
  }

  lemma AppendEmpty<T>(a: seq<T>)
    ensures a + [] == a && [] + a == a
  {
  }

  lemma AppendAssoc<T>(a: seq<T>, b: seq<T>, c: seq<T>)
    ensures a + b + c == a + (b + c)
  {
  }

  lemma MulStep(a: nat, n: nat)
    requires a > 0
    ensures a * n == n + (a - 1) * n
  {
  }

  lemma MulBound(j: nat, m: nat, n: nat, k: nat)
    requires j < m && k < n
    ensures j * n + k < m * n
  {
    MulStep(m - j, n);
    assert m * n == j * n + (m - j) * n;
  }

  /** The pieces separated by `sep` (`[String]::join`). */
  function Join(ss: seq<string>, sep: string): (r: string)
    ensures |ss| == 0 ==> r == []
    ensures |ss| == 1 ==> r == ss[0]
  {
    if |ss| == 0 then []
    else if |ss| == 1 then ss[0]
    else ss[0] + sep + Join(ss[1..], sep)
  }

  lemma JoinSnoc(ss: seq<string>, s: string, sep: string)
    requires |ss| > 0
    ensures Join(ss + [s], sep) == Join(ss, sep) + sep + s
  {
    if |ss| == 1 {
      assert (ss + [s])[1..] == [s];
    } else {
      assert (ss + [s])[1..] == ss[1..] + [s];
      JoinSnoc(ss[1..], s, sep);
    }
  }

  // ---------------------------------------------------------------------
  // Splitting on one character (`str::split(char)`)
  // ---------------------------------------------------------------------

  /**
   * The pieces of `s` between occurrences of `c`. Like Rust's `split`, it
   * always yields at least one piece and keeps empty pieces.
   */
  function Split(s: string, c: char): (r: seq<string>)
    ensures |r| >= 1
    ensures forall i | 0 <= i < |r| :: c !in r[i]
    ensures Join(r, [c]) == s
  {
    if |s| == 0 then [[]]
    else if s[0] == c then
      var rest := Split(s[1..], c);
      assert s == [c] + s[1..];
      [[]] + rest
    else
      var rest := Split(s[1..], c);
      var r := [[s[0]] + rest[0]] + rest[1..];
      assert Join(r, [c]) == s by {
        if |rest| == 1 {
        } else {
          assert r[1..] == rest[1..];
        }
      }
      r
  }

  /** Splitting a join of `c`-free pieces gives the pieces back. */
  lemma {:induction false} SplitJoin(ss: seq<string>, c: char)
    requires |ss| >= 1
    requires forall i | 0 <= i < |ss| :: c !in ss[i]
    ensures Split(Join(ss, [c]), c) == ss
  {
    if |ss| == 1 {
      SplitNoSep(ss[0], c);
    } else {
      SplitJoin(ss[1..], c);
      SplitPrefix(ss[0], Join(ss[1..], [c]), c);
      assert ss == [ss[0]] + ss[1..];
    }
  }

  lemma {:induction false} SplitNoSep(s: string, c: char)
    requires c !in s
    ensures Split(s, c) == [s]
  {
    if |s| > 0 {
      SplitNoSep(s[1..], c);
    }
  }

  lemma {:induction false} SplitPrefix(p: string, t: string, c: char)
    requires c !in p
    ensures Split(p + [c] + t, c) == [p] + Split(t, c)
  {
    if |p| == 0 {
      assert (p + [c] + t)[1..] == t;
    } else {
      assert (p + [c] + t)[1..] == p[1..] + [c] + t;
      SplitPrefix(p[1..], t, c);
      var rest := Split(p[1..] + [c] + t, c);
      assert rest[0] == p[1..];
      assert [p[0]] + p[1..] == p;
      assert rest[1..] == Split(t, c);
    }
  }

  // ---------------------------------------------------------------------
  // Whitespace (`char::is_whitespace`, `str::trim`, `split_whitespace`)
  // ---------------------------------------------------------------------

  /** Unicode `White_Space`, which is what Rust's `char::is_whitespace` tests. */
  predicate IsWhitespace(c: char)
  {
    ('\t' <= c <= '\r') || c == ' ' || c == '\U{0085}' || c == '\U{00A0}'
    || c == '\U{1680}' || ('\U{2000}' <= c <= '\U{200A}')
    || c == '\U{2028}' || c == '\U{2029}' || c == '\U{202F}'
    || c == '\U{205F}' || c == '\U{3000}'
  }

  predicate NoWhitespace(s: string)
  {
    forall i | 0 <= i < |s| :: !IsWhitespace(s[i])
  }

  /** Number of whitespace characters that start `s`. */
  function LeadingWhitespace(s: string): (i: nat)
    ensures i <= |s|
    ensures forall k | 0 <= k < i :: IsWhitespace(s[k])
    ensures i < |s| ==> !IsWhitespace(s[i])
  {
    if |s| > 0 && IsWhitespace(s[0]) then 1 + LeadingWhitespace(s[1..]) else 0
  }

  /** Index where the trailing whitespace of `s` begins. */
  function TrailingWhitespace(s: string): (j: nat)
    ensures j <= |s|
    ensures forall k | j <= k < |s| :: IsWhitespace(s[k])
    ensures j > 0 ==> !IsWhitespace(s[j - 1])
  {
    if |s| > 0 && IsWhitespace(s[|s| - 1]) then TrailingWhitespace(s[..|s| - 1]) else |s|
  }

  /** `s` with leading and trailing whitespace removed (`str::trim`). */
  function Trim(s: string): (r: string)
    ensures r == [] || (!IsWhitespace(r[0]) && !IsWhitespace(r[|r| - 1]))
    ensures LeadingWhitespace(s) + |r| <= |s|
    ensures r == s[LeadingWhitespace(s)..LeadingWhitespace(s) + |r|]
    ensures forall k | LeadingWhitespace(s) + |r| <= k < |s| :: IsWhitespace(s[k])
  {
    var i := LeadingWhitespace(s);
    var t := s[i..];
    t[..TrailingWhitespace(t)]
  }

  /** The maximal whitespace-free prefix of `s`. */
  function WordPrefix(s: string): (r: string)
    ensures |r| <= |s| && r == s[..|r|]
    ensures NoWhitespace(r)
    ensures |r| < |s| ==> IsWhitespace(s[|r|])
  {
    if |s| == 0 || IsWhitespace(s[0]) then []
    else
      var rest := WordPrefix(s[1..]);
      [s[0]] + rest
  }

  /**
   * The maximal runs of non-whitespace characters of `s`, in order
   * (`str::split_whitespace`).
   */
  function SplitWhitespace(s: string): (r: seq<string>)
    ensures forall i | 0 <= i < |r| :: |r[i]| > 0 && NoWhitespace(r[i])
    ensures |s| == 0 ==> r == []
    decreases |s|
  {
    if |s| == 0 then []
    else if IsWhitespace(s[0]) then SplitWhitespace(s[1..])
    else
      var w := WordPrefix(s);
      [w] + SplitWhitespace(s[|w|..])
  }

  lemma {:induction false} WordPrefixOf(w: string, t: string)
    requires NoWhitespace(w)
    requires t == [] || IsWhitespace(t[0])
    ensures WordPrefix(w + t) == w
  {
    if |w| > 0 {
      assert (w + t)[1..] == w[1..] + t;
      WordPrefixOf(w[1..], t);
    }
  }

  lemma {:induction false} SplitWhitespaceLeading(t: string)
    requires |t| > 0 && IsWhitespace(t[0])
    ensures SplitWhitespace(t) == SplitWhitespace(t[1..])
  {
  }

  /**
   * Joining whitespace-free, non-empty words with single spaces and
   * splitting on whitespace gives the words back.
   */
  lemma {:induction false} SplitWhitespaceJoin(ws: seq<string>)
    requires forall i | 0 <= i < |ws| :: |ws[i]| > 0 && NoWhitespace(ws[i])
    ensures SplitWhitespace(Join(ws, " ")) == ws
  {
    if |ws| == 0 {
    } else if |ws| == 1 {
      SplitWhitespaceWord(ws[0]);
    } else {
      SplitWhitespaceCons(ws[0], Join(ws[1..], " "));
      SplitWhitespaceJoin(ws[1..]);
      assert ws == [ws[0]] + ws[1..];
    }
  }

  lemma SplitWhitespaceWord(w: string)
    requires |w| > 0 && NoWhitespace(w)
    ensures SplitWhitespace(w) == [w]
  {
    WordPrefixOf(w, []);
    assert w + [] == w;
    assert w[|w|..] == [];
  }

  /** A word followed by a space splits off as the first word. */
  lemma SplitWhitespaceCons(w: string, rest: string)
    requires |w| > 0 && NoWhitespace(w)
    ensures SplitWhitespace(w + " " + rest) == [w] + SplitWhitespace(rest)
  {
    var s := w + " " + rest;
    assert w + (" " + rest) == s;
    WordPrefixOf(w, " " + rest);
    assert s[|w|..] == " " + rest;
    SplitWhitespaceLeading(" " + rest);
    assert (" " + rest)[1..] == rest;
  }

  // ---------------------------------------------------------------------
  // UTF-8 length (`str::len` counts bytes)
  // ---------------------------------------------------------------------

  /** Number of bytes UTF-8 uses for `c`. */
  function Utf8Len(c: char): (n: nat)
    ensures 1 <= n <= 4
    ensures n == 1 <==> c as int < 0x80
  {
    if c as int < 0x80 then 1
    else if c as int < 0x800 then 2
    else if c as int < 0x10000 then 3
    else 4
  }

  /** Byte length of the UTF-8 encoding of `s`. */
  function ByteLen(s: string): (n: nat)
    ensures |s| <= n <= 4 * |s|
  {
    if |s| == 0 then 0 else Utf8Len(s[0]) + ByteLen(s[1..])
  }

  lemma {:induction false} ByteLenAppend(a: string, b: string)
    ensures ByteLen(a + b) == ByteLen(a) + ByteLen(b)
  {
    if |a| == 0 {
      assert a + b == b;
    } else {
      assert (a + b)[1..] == a[1..] + b;
      ByteLenAppend(a[1..], b);
    }
  }

  // ---------------------------------------------------------------------
  // Decimal and hexadecimal rendering (`Display`, `{:04X}`)
  // ---------------------------------------------------------------------

  predicate IsDigit(c: char) { '0' <= c <= '9' }

  predicate AllDigits(s: string)
  {
    forall i | 0 <= i < |s| :: IsDigit(s[i])
  }

  function DigitChar(d: nat): (c: char)
    requires d < 10
    ensures IsDigit(c) && c as int - '0' as int == d
  {
    (('0' as int) + d) as char
  }

  /** Decimal digits of `n`, no leading zeros (`n.to_string()`). */
  function NatToString(n: nat): (r: string)
    ensures |r| >= 1 && AllDigits(r)
    ensures r[0] == '0' <==> n == 0
  {
    if n < 10 then [DigitChar(n)] else NatToString(n / 10) + [DigitChar(n % 10)]
  }

  /** Signed decimal rendering (`i32`/`i64` `Display`). */
  function IntToString(i: int): (r: string)
    ensures i >= 0 ==> r == NatToString(i)
    ensures i < 0 ==> r == "-" + NatToString(-i)
  {
    if i < 0 then "-" + NatToString(-i) else NatToString(i)
  }

  /** The number a string of decimal digits denotes. */
  function DigitsValue(s: string): nat
    requires AllDigits(s)
  {
    if |s| == 0 then 0 else 10 * DigitsValue(s[..|s| - 1]) + (s[|s| - 1] as int - '0' as int)
  }

  lemma {:induction false} DigitsValueNatToString(n: nat)
    ensures DigitsValue(NatToString(n)) == n
  {
    if n >= 10 {
      var s := NatToString(n);
      assert s[..|s| - 1] == NatToString(n / 10);
      DigitsValueNatToString(n / 10);
    }
  }

  function HexDigit(d: nat): (c: char)
    requires d < 16
    ensures HexValue(c) == d
  {
    if d < 10 then DigitChar(d) else (('A' as int) + d - 10) as char
  }

  /** Value of an upper-case hexadecimal digit (other characters count as 0). */
  function HexValue(c: char): nat
  {
    if '0' <= c <= '9' then c as int - '0' as int
    else if 'A' <= c <= 'F' then c as int - 'A' as int + 10
    else 0
  }

  /** Upper-case hexadecimal digits of `n`, no leading zeros. */
  function HexString(n: nat): (r: string)
    ensures |r| >= 1
    ensures n < 0x10 <==> |r| == 1
    ensures n < 0x100 <==> |r| <= 2
    ensures n < 0x1000 <==> |r| <= 3
    ensures n < 0x10000 <==> |r| <= 4
  {
    if n < 16 then [HexDigit(n)] else HexString(n / 16) + [HexDigit(n % 16)]
  }

  function Repeat(c: char, k: nat): (r: string)
    ensures |r| == k && forall i | 0 <= i < k :: r[i] == c
  {
    if k == 0 then [] else [c] + Repeat(c, k - 1)
  }

  /** `format!("{:0wX}", n)`: hexadecimal zero-padded to at least `w` digits. */
  function HexPad(n: nat, w: nat): (r: string)
    ensures |r| == if |HexString(n)| >= w then |HexString(n)| else w
  {
    var h := HexString(n);
    if |h| >= w then h else Repeat('0', w - |h|) + h
  }

  function HexDigitsValue(s: string): nat
  {
    if |s| == 0 then 0 else 16 * HexDigitsValue(s[..|s| - 1]) + HexValue(s[|s| - 1])
  }

  lemma {:induction false} HexStringValue(n: nat)
    ensures HexDigitsValue(HexString(n)) == n
  {
    if n >= 16 {
      var s := HexString(n);
      assert s[..|s| - 1] == HexString(n / 16);
      HexStringValue(n / 16);
    }
  }

  lemma {:induction false} HexLeadingZeros(k: nat, h: string)
    ensures HexDigitsValue(Repeat('0', k) + h) == HexDigitsValue(h)
    decreases |h|
  {
    if |h| == 0 {
      ZerosValue(k);
      assert Repeat('0', k) + h == Repeat('0', k);
    } else {
      var s := Repeat('0', k) + h;
      assert s[..|s| - 1] == Repeat('0', k) + h[..|h| - 1];
      HexLeadingZeros(k, h[..|h| - 1]);
    }
  }

  lemma {:induction false} ZerosValue(k: nat)
    ensures HexDigitsValue(Repeat('0', k)) == 0
  {
    if k > 0 {
      var s := Repeat('0', k);
      assert s[..|s| - 1] == Repeat('0', k - 1) by {
        assert s[..|s| - 1] == ([('0')] + Repeat('0', k - 1))[..k - 1];
      }
      ZerosValue(k - 1);
    }
  }

  /** Zero-padded hexadecimal reads back as the number it renders. */
  lemma HexPadValue(n: nat, w: nat)
    ensures HexDigitsValue(HexPad(n, w)) == n
  {
    var h := HexString(n);
    HexStringValue(n);
    if |h| < w {
      assert HexPad(n, w) == Repeat('0', w - |h|) + h;
      HexLeadingZeros(w - |h|, h);
    } else {
      assert HexPad(n, w) == h;
    }
  }

  // ---------------------------------------------------------------------
  // Integer parsing (`str::parse` for the fixed-width integer types)
  // ---------------------------------------------------------------------

  /** `s` without one leading occurrence of `c`, if there is one. */
  function DropSign(s: string, c: char): (r: string)
    ensures r == s || (|s| > 0 && s[0] == c && r == s[1..])
  {
    if |s| > 0 && s[0] == c then s[1..] else s
  }

  /**
   * An unsigned integer type whose values lie below `limit`: an optional
   * '+', then one or more ASCII digits (leading zeros allowed) denoting a
   * value in range. A '-' sign, an empty string and any other character fail.
   */
  function ParseUnsigned(s: string, limit: nat): (r: Option<nat>)
    ensures r.Some? ==> r.value < limit
    ensures r.Some? <==> var ds := DropSign(s, '+');
      |ds| > 0 && AllDigits(ds) && DigitsValue(ds) < limit
    ensures r.Some? ==> r.value == DigitsValue(DropSign(s, '+'))
  {
    var ds := DropSign(s, '+');
    if |ds| > 0 && AllDigits(ds) && DigitsValue(ds) < limit then Some(DigitsValue(ds)) else None
  }

  /**
   * A signed integer type with values in `-bound..bound`: an optional '+'
   * or '-', then one or more ASCII digits.
   */
  function ParseSigned(s: string, bound: nat): (r: Option<int>)
    requires bound > 0
    ensures r.Some? ==> -(bound as int) <= r.value < bound
    ensures |s| > 0 && s[0] == '-' ==>
      var ds := s[1..];
      (r.Some? <==> |ds| > 0 && AllDigits(ds) && DigitsValue(ds) <= bound)
      && (r.Some? ==> r.value == -(DigitsValue(ds) as int))
    ensures !(|s| > 0 && s[0] == '-') ==> r == ParseUnsigned(s, bound)
  {
    if |s| > 0 && s[0] == '-' then
      var ds := s[1..];
      if |ds| > 0 && AllDigits(ds) && DigitsValue(ds) <= bound then Some(-(DigitsValue(ds) as int)) else None
    else
      match ParseUnsigned(s, bound)
      case Some(n) => Some(n)
      case None => None
  }

  /** Parsing reads back what `NatToString` and `IntToString` print. */
  lemma ParseNatToString(n: nat, limit: nat)
    requires n < limit
    ensures ParseUnsigned(NatToString(n), limit) == Some(n)
  {
    var s := NatToString(n);
    assert DropSign(s, '+') == s by {
      assert s[0] != '+';
    }
    DigitsValueNatToString(n);
  }

  lemma ParseIntToString(i: int, bound: nat)
    requires -(bound as int) <= i < bound
    ensures ParseSigned(IntToString(i), bound) == Some(i)
  {
    if i < 0 {
      ParseNegated(-i, bound);
    } else {
      ParseNonNegative(i, bound);
    }
  }

  lemma ParseNegated(n: nat, bound: nat)
    requires 0 < n <= bound
    ensures ParseSigned("-" + NatToString(n), bound) == Some(-(n as int))
  {
    var ds := NatToString(n);
    assert ("-" + ds)[1..] == ds;
    DigitsValueNatToString(n);
  }

  lemma ParseNonNegative(n: nat, bound: nat)
    requires n < bound
    ensures ParseSigned(NatToString(n), bound) == Some(n)
  {
    assert NatToString(n)[0] != '-';
    ParseNatToString(n, bound);
  }

  // ---------------------------------------------------------------------
  // Sums
  // ---------------------------------------------------------------------

  function SumReal(xs: seq<real>): real
  {
    if |xs| == 0 then 0.0 else SumReal(xs[..|xs| - 1]) + xs[|xs| - 1]
  }

  function SumNat(xs: seq<nat>): nat
  {
    if |xs| == 0 then 0 else SumNat(xs[..|xs| - 1]) + xs[|xs| - 1]
  }
}
