/** Character-class rules for where a line may break inside Thai text. */
module LineBreak {

  /** The Thai block, U+0E00 to U+0E7F. */
  predicate IsThaiChar(c: char): (b: bool)
    ensures b <==> c as int / 0x80 == 0x1C
  {
    '\U{0E00}' <= c <= '\U{0E7F}'
  }

  /** Vowels written before the consonant they follow in speech: เ แ โ ไ ใ. */
  predicate IsLeadingVowel(c: char): (b: bool)
    ensures b <==> 0x0E40 <= c as int <= 0x0E44
  {
    c == 'เ' || c == 'แ' || c == 'โ' || c == 'ไ' || c == 'ใ'
  }

  /** Marks written above or below a consonant: U+0E31, U+0E34..U+0E3A, U+0E47..U+0E4E. */
  predicate IsAboveBelowMark(c: char): (b: bool)
    ensures b ==> IsThaiChar(c) && !IsLeadingVowel(c)
    ensures c == '\U{0E32}' || c == '\U{0E33}' ==> !b
  {
    c == '\U{0E31}' || ('\U{0E34}' <= c <= '\U{0E3A}') || ('\U{0E47}' <= c <= '\U{0E4E}')
  }

  /** A break is refused before a mark, before a leading vowel, and after a leading vowel. */
  function CanBreakBetween(left: char, right: char): (b: bool)
    ensures b <==> !IsAboveBelowMark(right) && !IsLeadingVowel(right) && !IsLeadingVowel(left)
  {
    if IsAboveBelowMark(right) then false
    else if IsLeadingVowel(right) then false
    else if IsLeadingVowel(left) then false
    else true
  }

  /** Every leading vowel and every mark is a Thai character. */
  lemma ClassesAreThai(c: char)
    ensures IsLeadingVowel(c) ==> IsThaiChar(c)
    ensures IsAboveBelowMark(c) ==> IsThaiChar(c)
    ensures !(IsLeadingVowel(c) && IsAboveBelowMark(c))
  {
  }

  /** Outside the Thai block every break is allowed. */
  lemma NonThaiAlwaysBreaks(left: char, right: char)
    requires !IsThaiChar(left) && !IsThaiChar(right)
    ensures CanBreakBetween(left, right)
  {
    ClassesAreThai(left);
    ClassesAreThai(right);
  }

  /** `xs` is strictly increasing. */
  predicate StrictlyIncreasing(xs: seq<nat>)
  {
    forall i, j | 0 <= i < j < |xs| :: xs[i] < xs[j]
  }

  /**
   * The character indices where a line may break: always 0 and the length,
   * and every interior index whose neighbours allow a break.
   */
  method FindBreakPoints(text: string) returns (r: seq<nat>)
    ensures |r| >= 2 && r[0] == 0 && r[|r| - 1] == |text|
    ensures forall i | 0 < i < |text| :: i in r <==> CanBreakBetween(text[i - 1], text[i])
    ensures forall k | 0 <= k < |r| :: r[k] <= |text|
    ensures |text| > 0 ==> StrictlyIncreasing(r)
    ensures |text| == 0 ==> r == [0, 0]
  {
    r := [0];
    var i := 1;
    while i < |text|
      invariant 1 <= i <= if |text| == 0 then 1 else |text|
      invariant 1 <= |r| <= i && r[0] == 0
      invariant forall k | 0 <= k < |r| :: r[k] < i
      invariant StrictlyIncreasing(r)
      invariant forall j | 0 < j < i :: j in r <==> CanBreakBetween(text[j - 1], text[j])
    {
      if CanBreakBetween(text[i - 1], text[i]) {
        r := r + [i];
      }
      i := i + 1;
    }
    r := r + [|text|];
  }
}
