/**
 * Dictionary-based segmentation of Thai text by longest match, and
 * greedy word wrapping on segment boundaries.
 */
module Wordcut {
  import opened Strs
  import opened Dictionary
  import opened Greedy

  /** Every piece is non-empty. */
  predicate AllNonEmpty(ws: seq<string>)
  {
    forall i | 0 <= i < |ws| :: |ws[i]| > 0
  }

  /** `chars[pos..pos + l]` exists and is a dictionary word. */
  predicate WordAt(d: Dict, chars: string, pos: nat, l: nat)
  {
    pos + l <= |chars| && chars[pos..pos + l] in d.words
  }

  /**
   * The longest `l` in `1..=len` such that `chars[pos..pos + l]` is a
   * dictionary word, or 0 when there is none (the descending `for len`
   * loop of `segment`).
   */
  function MatchLen(d: Dict, chars: string, pos: nat, len: nat): (r: nat)
    requires pos + len <= |chars|
    ensures r <= len
    ensures r > 0 ==> WordAt(d, chars, pos, r)
    ensures forall l | r < l <= len :: !WordAt(d, chars, pos, l)
  {
    if len == 0 then 0
    else if chars[pos..pos + len] in d.words then len
    else MatchLen(d, chars, pos, len - 1)
  }

  function Min(a: nat, b: nat): nat { if a < b then a else b }

  /** Length of the first segment of a non-empty text. */
  function HeadLen(d: Dict, text: string): (len: nat)
    requires |text| > 0
    ensures 1 <= len <= |text|
  {
    var m := MatchLen(d, text, 0, Min(d.maxWordLen, |text|));
    if m > 0 then m else 1
  }

  /**
   * Splits `text` into dictionary words by longest match from the left; a
   * character that starts no dictionary word becomes a segment of its own.
   * The source walks a position through the characters; here each step
   * continues on the remaining suffix.
   */
  function Segment(d: Dict, text: string): (r: seq<string>)
    ensures Concat(r) == text
    ensures AllNonEmpty(r)
    ensures forall i | 0 <= i < |r| :: r[i] in d.words || |r[i]| == 1
    ensures text == [] <==> r == []
    decreases |text|
  {
    if text == [] then []
    else
      var len := HeadLen(d, text);
      assert text == text[..len] + text[len..];
      [text[..len]] + Segment(d, text[len..])
  }

  /**
   * The first segment is the longest prefix of `text` that is a dictionary
   * word (or the first character when no prefix is).
   */
  lemma SegmentHead(d: Dict, text: string)
    requires Valid(d)
    requires |text| > 0
    ensures var r := Segment(d, text);
      && |r| > 0
      && r[0] == text[..|r[0]|]
      && (r[0] in d.words || |r[0]| == 1)
      && (forall l | |r[0]| < l <= |text| :: text[..l] !in d.words)
      && r[1..] == Segment(d, text[|r[0]|..])
  {
    var len := HeadLen(d, text);
    var n := Min(d.maxWordLen, |text|);
    forall l | len < l <= |text| ensures text[..l] !in d.words {
      assert text[..l] == text[0..0 + l];
      if l <= n {
        assert !WordAt(d, text, 0, l);
      } else {
        assert |text[..l]| == l;
      }
    }
  }

  /** No segment is longer than the longest dictionary word, or than one character. */
  lemma SegmentBound(d: Dict, text: string)
    requires Valid(d)
    ensures forall i | 0 <= i < |Segment(d, text)| ::
      |Segment(d, text)[i]| <= if d.maxWordLen > 1 then d.maxWordLen else 1
  {
  }

  // ---------------------------------------------------------------------
  // Word wrap
  // ---------------------------------------------------------------------

  /**
   * The `word_wrap` test: a segment joins the current line when the line's
   * character count (the source's `current_len`) plus its own stays within
   * the budget.
   */
  function Budget(maxChars: nat): (seq<string>, string) -> bool
  {
    (cur: seq<string>, w: string) => LengthSum(cur) + |w| <= maxChars
  }

  /** The lines of the wrapped text as groups of segments. */
  function WrapGroups(d: Dict, text: string, maxChars: nat): (gs: seq<seq<string>>)
    ensures IsGreedy(gs, Budget(maxChars))
    ensures Concat(gs) == Segment(d, text)
    ensures text == [] <==> gs == []
  {
    assert Concat(Segment(d, text)) == text;
    Fill(Segment(d, text), Budget(maxChars))
  }

  /** A greedy line of two or more segments stays within the budget. */
  lemma ChainedFits(g: seq<string>, maxChars: nat)
    requires Chained(g, Budget(maxChars)) && |g| > 1
    ensures LengthSum(g) <= maxChars
  {
    var n := |g| - 1;
    assert Budget(maxChars)(g[..n], g[n]);
    LengthSumSnoc(g[..n], g[n]);
    assert g[..n] + [g[n]] == g;
  }

  lemma {:induction false} LengthSumSnoc(g: seq<string>, w: string)
    ensures LengthSum(g + [w]) == LengthSum(g) + |w|
  {
    if |g| > 0 {
      assert (g + [w])[1..] == g[1..] + [w];
      LengthSumSnoc(g[1..], w);
    }
  }

  /** Each group rendered as its line. */
  function JoinGroups(gs: seq<seq<string>>): (lines: seq<string>)
    ensures |lines| == |gs|
    ensures forall i | 0 <= i < |gs| :: lines[i] == Concat(gs[i])
    ensures Concat(lines) == Concat(Concat(gs))
  {
    if |gs| == 0 then []
    else
      ConcatAppend(gs[0], Concat(gs[1..]));
      [Concat(gs[0])] + JoinGroups(gs[1..])
  }

  /**
   * Wraps `text` into lines of at most `maxChars` characters, breaking only
   * between segments. A budget of 0 disables wrapping, and an empty text
   * gives one empty line.
   */
  function WordWrap(d: Dict, text: string, maxChars: nat): (lines: seq<string>)
    ensures |lines| >= 1
    ensures Concat(lines) == text
    ensures maxChars == 0 ==> lines == [text]
    ensures text == [] ==> lines == [[]]
    ensures maxChars > 0 ==> forall i | 0 <= i < |lines| ::
              |lines[i]| <= maxChars || lines[i] in d.words || |lines[i]| == 1
  {
    if maxChars == 0 then [text]
    else
      var gs := WrapGroups(d, text, maxChars);
      var lines := JoinGroups(gs);
      forall i | 0 <= i < |lines|
        ensures |lines[i]| <= maxChars || lines[i] in d.words || |lines[i]| == 1
      {
        LineBound(d, text, maxChars, gs, i);
      }
      if lines == [] then [[]] else lines
  }

  /** A wrapped line fits, or is a single segment: a dictionary word or one character. */
  lemma LineBound(d: Dict, text: string, maxChars: nat, gs: seq<seq<string>>, i: nat)
    requires maxChars > 0 && gs == WrapGroups(d, text, maxChars) && i < |gs|
    ensures var line := JoinGroups(gs)[i];
      |line| <= maxChars || line in d.words || |line| == 1
  {
    var lines := JoinGroups(gs);
    assert Chained(gs[i], Budget(maxChars));
    if |gs[i]| == 1 {
      assert gs[i][1..] == [];
      assert lines[i] == gs[i][0] + Concat(gs[i][1..]) == gs[i][0];
      var k := LineHead(gs, i);
      assert Segment(d, text)[k] in d.words || |Segment(d, text)[k]| == 1;
    } else {
      ChainedFits(gs[i], maxChars);
    }
  }

  /**
   * Greedy wrapping: each line is one group of whole segments, and a line
   * ends only where the next segment would push it past the budget.
   */
  lemma WordWrapGreedy(d: Dict, text: string, maxChars: nat)
    requires maxChars > 0 && text != []
    ensures var lines := WordWrap(d, text, maxChars);
            var gs := WrapGroups(d, text, maxChars);
      && |lines| == |gs|
      && (forall i | 0 <= i < |gs| :: lines[i] == Concat(gs[i]))
      && (forall i | 0 <= i < |gs| - 1 :: |lines[i]| + |gs[i + 1][0]| > maxChars)
  {
    var gs := WrapGroups(d, text, maxChars);
    forall i | 0 <= i < |gs| - 1 ensures LengthSum(gs[i]) + |gs[i + 1][0]| > maxChars {
      assert !Budget(maxChars)(gs[i], gs[i + 1][0]);
    }
  }
}
