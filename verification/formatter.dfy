/**
 * Thai number words, baht amounts, Buddhist-era dates, and the integer
 * grouping and format-pattern parsing used by float rendering.
 */
module ThaiFormat {
  import opened Strs
  import opened Results

  const NumberNames: seq<string> :=
    ["ศูนย์", "หนึ่ง", "สอง", "สาม", "สี่", "ห้า", "หก", "เจ็ด", "แปด", "เก้า"]

  /** Names of the six positions that repeat in every million. */
  const UnitNames: seq<string> := ["", "สิบ", "ร้อย", "พัน", "หมื่น", "แสน"]

  const Million: string := "ล้าน"

  const MonthsShort: seq<string> :=
    ["ม.ค.", "ก.พ.", "มี.ค.", "เม.ย.", "พ.ค.", "มิ.ย.", "ก.ค.", "ส.ค.", "ก.ย.", "ต.ค.", "พ.ย.", "ธ.ค."]

  const MonthsLong: seq<string> :=
    ["มกราคม", "กุมภาพันธ์", "มีนาคม", "เมษายน", "พฤษภาคม", "มิถุนายน",
     "กรกฎาคม", "สิงหาคม", "กันยายน", "ตุลาคม", "พฤศจิกายน", "ธันวาคม"]

  // ---------------------------------------------------------------------
  // Numbers in words
  // ---------------------------------------------------------------------

  /**
   * One word of a spelled-out number: a digit name, a position name, the
   * ยี่ of twenty, the เอ็ด of a trailing one, or the ล้าน of a million.
   */
  datatype NumWord = Name(digit: nat) | Place(unit: nat) | Yi | Et | Lan

  function WordText(w: NumWord): string
  {
    match w
    case Name(d) => if d < 10 then NumberNames[d] else ""
    case Place(u) => if u < 6 then UnitNames[u] else ""
    case Yi => "ยี่"
    case Et => "เอ็ด"
    case Lan => Million
  }

  /** The text of a list of words. */
  function Render(ws: seq<NumWord>): string
  {
    if ws == [] then "" else WordText(ws[0]) + Render(ws[1..])
  }

  lemma {:induction false} RenderAppend(a: seq<NumWord>, b: seq<NumWord>)
    ensures Render(a + b) == Render(a) + Render(b)
  {
    if a == [] {
      assert a + b == b;
    } else {
      assert (a + b)[1..] == a[1..] + b;
      RenderAppend(a[1..], b);
    }
  }

  /**
   * The words for one digit at a position of the six-position cycle:
   * 2 in the tens is ยี่, 1 in the tens is silent, and 1 in the units is
   * เอ็ด when higher digits follow; a zero digit says nothing.
   */
  function DigitWords(digit: nat, unit: nat, hasHigher: bool): seq<NumWord>
    requires digit < 10 && unit < 6
  {
    if digit == 0 then []
    else
      var name :=
        if unit == 1 && digit == 2 then [Yi]
        else if unit == 1 && digit == 1 then []
        else if unit == 0 && digit == 1 && hasHigher then [Et]
        else [Name(digit)];
      name + (if unit == 0 then [] else [Place(unit)])
  }

  /**
   * The words for the digits of `n` read from position `pos` upwards; ล้าน
   * is placed above every sixth position that has higher digits.
   */
  function Words(n: nat, pos: nat): seq<NumWord>
    decreases n
  {
    if n == 0 then []
    else
      Words(n / 10, pos + 1)
      + (if pos % 6 == 5 && n >= 10 then [Lan] else [])
      + DigitWords(n % 10, pos % 6, n / 10 > 0)
  }

  function Abs(n: int): nat { if n < 0 then -n else n }

  /** An integer in Thai words; the sign is dropped. */
  function FormatThaiNumber(n: int): (r: string)
    ensures n == 0 ==> r == "ศูนย์"
    ensures 0 < Abs(n) < 10 ==> r == NumberNames[Abs(n)]
  {
    if n == 0 then NumberNames[0]
    else
      SingleDigitWords(Abs(n));
      Render(Words(Abs(n), 0))
  }

  /** A single digit on its own reads as its name. */
  lemma SingleDigitWords(d: nat)
    ensures 0 < d < 10 ==> Render(Words(d, 0)) == NumberNames[d]
  {
    if 0 < d < 10 {
      assert Words(d / 10, 1) == [];
      assert Words(d, 0) == [Name(d)];
      assert Render([Name(d)]) == WordText(Name(d)) + Render([]);
    }
  }

  /** A number and its negation read the same. */
  lemma ThaiNumberIgnoresSign(n: int)
    ensures FormatThaiNumber(-n) == FormatThaiNumber(n)
  {
  }

  /** Words depend on the position only through its place in the six-position cycle. */
  lemma {:induction false} WordsCycle(n: nat, pos: nat)
    ensures Words(n, pos + 6) == Words(n, pos)
    decreases n
  {
    if n > 0 {
      WordsCycle(n / 10, pos + 1);
      assert (pos + 6) % 6 == pos % 6;
    }
  }

  /**
   * The words of the low `k` digits of a number that has higher non-zero
   * digits: every ล้าน marker is present, and a units 1 reads เอ็ด.
   */
  function LowWords(r: nat, k: nat, pos: nat): seq<NumWord>
    decreases k
  {
    if k == 0 then []
    else
      LowWords(r / 10, k - 1, pos + 1)
      + (if pos % 6 == 5 then [Lan] else [])
      + DigitWords(r % 10, pos % 6, true)
  }

  /** The same, without markers. */
  function PlainWords(r: nat, k: nat, pos: nat): seq<NumWord>
    decreases k
  {
    if k == 0 then [] else PlainWords(r / 10, k - 1, pos + 1) + DigitWords(r % 10, pos % 6, true)
  }

  /** `n` with its low `k` digits dropped. */
  function DropDigits(n: nat, k: nat): nat
  {
    if k == 0 then n else DropDigits(n / 10, k - 1)
  }

  lemma {:induction false} DropZero(k: nat)
    ensures DropDigits(0, k) == 0
  {
    if k > 0 { DropZero(k - 1); }
  }

  /** Splitting off the low `k` digits of a number whose higher digits are not all zero. */
  lemma {:induction false} WordsSplit(n: nat, k: nat, pos: nat, top: nat)
    requires DropDigits(n, k) >= 1 && top == pos + k
    ensures Words(n, pos) == Words(DropDigits(n, k), top) + LowWords(n, k, pos)
    decreases k
  {
    if k > 0 {
      HigherDigits(n, k);
      WordsSplit(n / 10, k - 1, pos + 1, top);
      WordsSplitStep(n, k, pos, top);
    } else {
      AppendEmpty(Words(n, pos));
    }
  }

  lemma HigherDigits(n: nat, k: nat)
    requires k > 0 && DropDigits(n, k) >= 1
    ensures n / 10 >= 1 && DropDigits(n / 10, k - 1) == DropDigits(n, k)
  {
    if n / 10 == 0 { DropZero(k - 1); }
  }

  lemma WordsSplitStep(n: nat, k: nat, pos: nat, top: nat)
    requires k > 0 && n / 10 >= 1 && top == pos + k
    requires Words(n / 10, pos + 1) == Words(DropDigits(n / 10, k - 1), top) + LowWords(n / 10, k - 1, pos + 1)
    ensures Words(n, pos) == Words(DropDigits(n, k), top) + LowWords(n, k, pos)
  {
    WordsStep(n, pos);
    var hi := Words(DropDigits(n / 10, k - 1), top);
    var lo := LowWords(n / 10, k - 1, pos + 1);
    var marker: seq<NumWord> := if pos % 6 == 5 then [Lan] else [];
    var digit := DigitWords(n % 10, pos % 6, true);
    assert LowWords(n, k, pos) == lo + marker + digit;
    AppendAssoc(hi, lo, marker);
    AppendAssoc(hi, lo + marker, digit);
  }

  /** A number with at least two digits: its higher digits, the marker, then its units digit. */
  lemma WordsStep(n: nat, pos: nat)
    requires n / 10 >= 1
    ensures Words(n, pos) ==
      Words(n / 10, pos + 1) + (if pos % 6 == 5 then [Lan] else []) + DigitWords(n % 10, pos % 6, true)
  {
  }

  /** The low `k` digits of `a` and `b` agree. */
  predicate SameLowDigits(a: nat, b: nat, k: nat)
    decreases k
  {
    k == 0 || (a % 10 == b % 10 && SameLowDigits(a / 10, b / 10, k - 1))
  }

  lemma {:induction false} LowWordsLowDigits(a: nat, b: nat, k: nat, pos: nat)
    requires SameLowDigits(a, b, k)
    ensures LowWords(a, k, pos) == LowWords(b, k, pos)
    decreases k
  {
    if k > 0 {
      LowWordsLowDigits(a / 10, b / 10, k - 1, pos + 1);
    }
  }

  function Pow10(k: nat): (p: nat)
    ensures p >= 1
  {
    if k == 0 then 1 else 10 * Pow10(k - 1)
  }

  lemma DivModUnique(n: int, d: int, q: int, r: int)
    requires d > 0 && 0 <= r < d && n == d * q + r
    ensures n / d == q && n % d == r
  {
    var q', r' := n / d, n % d;
    assert d * (q - q') == r' - r;
    if q > q' {
      MulAtLeast(d, q - q');
    } else if q < q' {
      MulAtLeast(d, q' - q);
    }
  }

  lemma MulAtLeast(d: int, x: int)
    requires d > 0 && x >= 1
    ensures d * x >= d
  {
  }

  lemma DivTen(n: nat, m: nat)
    requires m >= 1
    ensures n / 10 / m == n / (10 * m)
    ensures (n % (10 * m)) / 10 == (n / 10) % m
    ensures (n % (10 * m)) % 10 == n % 10
  {
    var q, r := n / (10 * m), n % (10 * m);
    assert n == (10 * m) * q + r;
    assert (10 * m) * q == 10 * (m * q);
    assert r == 10 * (r / 10) + r % 10;
    DivModUnique(n, 10, m * q + r / 10, r % 10);
    assert r / 10 < m;
    DivModUnique(m * q + r / 10, m, q, r / 10);
  }

  /** Dropping `k` digits divides by `10^k`, and the remainder keeps the low `k` digits. */
  lemma {:induction false} DropDigitsPow(n: nat, k: nat)
    ensures DropDigits(n, k) == n / Pow10(k)
    ensures SameLowDigits(n, n % Pow10(k), k)
  {
    if k > 0 {
      DropDigitsPow(n / 10, k - 1);
      DivTen(n, Pow10(k - 1));
    }
  }

  lemma MillionDigits(n: nat)
    ensures DropDigits(n, 6) == n / 1000000
    ensures SameLowDigits(n, n % 1000000, 6)
  {
    assert Pow10(6) == 1000000;
    DropDigitsPow(n, 6);
  }

  /** Below the top of a million cycle the only marker is the top one. */
  lemma {:induction false} LowWordsTop(r: nat, k: nat, pos: nat)
    requires k >= 1 && pos + k == 6
    ensures LowWords(r, k, pos) == [Lan] + PlainWords(r, k, pos)
    decreases k
  {
    if k > 1 {
      LowWordsTop(r / 10, k - 1, pos + 1);
      LowWordsBelowTop(r, k, pos);
    } else {
      LowWordsAtTop(r, pos);
    }
  }

  lemma LowWordsBelowTop(r: nat, k: nat, pos: nat)
    requires k > 1 && pos + k == 6
    requires LowWords(r / 10, k - 1, pos + 1) == [Lan] + PlainWords(r / 10, k - 1, pos + 1)
    ensures LowWords(r, k, pos) == [Lan] + PlainWords(r, k, pos)
  {
    var plain := PlainWords(r / 10, k - 1, pos + 1);
    var digit := DigitWords(r % 10, pos % 6, true);
    SmallMod(pos);
    AppendEmpty([Lan] + plain);
    AppendAssoc([Lan], plain, digit);
  }

  lemma SmallMod(pos: nat)
    requires pos < 6
    ensures pos % 6 == pos
  {
  }

  lemma LowWordsAtTop(r: nat, pos: nat)
    requires pos == 5
    ensures LowWords(r, 1, pos) == [Lan] + PlainWords(r, 1, pos)
  {
    var digit := DigitWords(r % 10, 5, true);
    assert LowWords(r, 1, pos) == [] + [Lan] + digit;
    assert PlainWords(r, 1, pos) == [] + digit;
  }

  lemma {:induction false} PlainWordsZero(k: nat, pos: nat)
    ensures PlainWords(0, k, pos) == []
  {
    if k > 0 {
      PlainWordsZero(k - 1, pos + 1);
    }
  }

  /** Within one cycle, a number's words do not depend on having higher digits, except a lone 1. */
  lemma {:induction false} PlainWordsAreWords(r: nat, k: nat, pos: nat)
    requires pos + k <= 6 && DropDigits(r, k) == 0
    requires pos > 0 || r != 1
    ensures PlainWords(r, k, pos) == Words(r, pos)
    decreases k
  {
    if k == 0 {
    } else if r == 0 {
      PlainWordsZero(k, pos);
    } else {
      PlainWordsAreWords(r / 10, k - 1, pos + 1);
      PlainWordsStep(r, k, pos);
      assert PlainWords(r, k, pos) == PlainWords(r / 10, k - 1, pos + 1) + DigitWords(r % 10, pos % 6, true);
    }
  }

  /** One digit of `PlainWordsAreWords`: no marker inside a cycle, and the units 1 is not last-but-alone. */
  lemma PlainWordsStep(r: nat, k: nat, pos: nat)
    requires k > 0 && r > 0 && pos + k <= 6 && DropDigits(r, k) == 0
    requires pos > 0 || r != 1
    ensures Words(r, pos) == Words(r / 10, pos + 1) + DigitWords(r % 10, pos % 6, true)
  {
    assert pos % 6 == pos;
    if pos == 5 {
      assert DropDigits(r, 1) == r / 10;
    }
  }

  lemma {:induction false} WordsMillionPlain(n: nat)
    requires n >= 1000000
    ensures Words(n, 0) == Words(n / 1000000, 0) + [Lan] + PlainWords(n % 1000000, 6, 0)
  {
    var q, r := n / 1000000, n % 1000000;
    MillionDigits(n);
    WordsSplitCycle(n, 6, q);
    LowWordsLowDigits(n, r, 6, 0);
    LowWordsTop(r, 6, 0);
    MarkerGlue(Words(n, 0), Words(q, 0), LowWords(n, 6, 0), PlainWords(r, 6, 0));
  }

  /** Splitting off one whole cycle of six digits. */
  lemma WordsSplitCycle(n: nat, k: nat, q: nat)
    requires k == 6 && q == DropDigits(n, k) && q >= 1
    ensures Words(n, 0) == Words(q, 0) + LowWords(n, k, 0)
  {
    WordsCycle(q, 0);
    assert Words(q, k) == Words(q, 0);
    WordsSplit(n, k, 0, k);
  }

  lemma MarkerGlue(whole: seq<NumWord>, hi: seq<NumWord>, lo: seq<NumWord>, plain: seq<NumWord>)
    requires whole == hi + lo && lo == [Lan] + plain
    ensures whole == hi + [Lan] + plain
  {
    AppendAssoc(hi, [Lan], plain);
  }

  lemma PlainWordsTail(r: nat)
    requires r < 1000000
    ensures PlainWords(r, 6, 0) == if r == 1 then [Et] else Words(r, 0)
  {
    if r == 0 {
      PlainWordsZero(6, 0);
    } else if r == 1 {
      PlainWordsZero(5, 1);
      assert PlainWords(r, 6, 0) == PlainWords(0, 5, 1) + DigitWords(1, 0, true);
    } else {
      MillionDigits(r);
      PlainWordsAreWords(r, 6, 0);
    }
  }

  /** The words of a number of millions, split at ล้าน. */
  lemma WordsMillion(n: nat)
    requires n >= 1000000
    ensures var q, r := n / 1000000, n % 1000000;
      Words(n, 0) == Words(q, 0) + [Lan] + (if r == 1 then [Et] else Words(r, 0))
  {
    WordsMillionPlain(n);
    PlainWordsTail(n % 1000000);
  }

  /**
   * A number of millions reads as its millions, then ล้าน, then the words
   * of the remainder, whose units 1 becomes เอ็ด.
   */
  lemma MillionSplit(n: nat)
    requires n >= 1000000
    ensures var q, r := n / 1000000, n % 1000000;
      FormatThaiNumber(n)
      == FormatThaiNumber(q) + Million
         + (if r == 0 then "" else if r == 1 then "เอ็ด" else FormatThaiNumber(r))
  {
    var q, r := n / 1000000, n % 1000000;
    WordsMillion(n);
    var tail := if r == 1 then [Et] else Words(r, 0);
    RenderAppend(Words(q, 0) + [Lan], tail);
    RenderAppend(Words(q, 0), [Lan]);
    assert Render([Lan]) == Million;
    assert Render(tail) == (if r == 0 then "" else if r == 1 then "เอ็ด" else FormatThaiNumber(r)) by {
      if r == 1 { assert Render([Et]) == "เอ็ด"; }
    }
  }

  /** Words for the tens digit: สิบ alone for 1, ยี่สิบ for 2, the digit then สิบ otherwise. */
  function TensWords(t: nat): seq<NumWord>
  {
    if t == 0 then [] else if t == 1 then [Place(1)] else if t == 2 then [Yi, Place(1)] else [Name(t), Place(1)]
  }

  /** Words for the units digit; a 1 after higher digits is เอ็ด. */
  function UnitWords(u: nat, afterHigher: bool): seq<NumWord>
  {
    if u == 0 then [] else if u == 1 && afterHigher then [Et] else [Name(u)]
  }

  /** The last two digits of a non-zero number follow the tens and units rules. */
  lemma LastTwoDigits(n: nat)
    requires n > 0
    ensures Words(n, 0) == Words(n / 100, 2) + TensWords(n / 10 % 10) + UnitWords(n % 10, n >= 10)
  {
    if n >= 10 {
      LastTwoHigh(n, n / 10);
    } else {
      LastTwoLow(n);
    }
  }

  lemma LastTwoLow(n: nat)
    requires 0 < n < 10
    ensures Words(n, 0) == Words(n / 100, 2) + TensWords(n / 10 % 10) + UnitWords(n % 10, false)
  {
    UnitsDigit(n, false);
    assert Words(n, 0) == [] + [] + DigitWords(n, 0, false);
  }

  lemma LastTwoHigh(n: nat, m: nat)
    requires n >= 10 && m == n / 10
    ensures Words(n, 0) == Words(n / 100, 2) + TensWords(m % 10) + UnitWords(n % 10, true)
  {
    UnitsPosition(n);
    TensPosition(m);
    assert m / 10 == n / 100;
  }

  /** The units position of a number with higher digits. */
  lemma UnitsPosition(n: nat)
    requires n >= 10
    ensures Words(n, 0) == Words(n / 10, 1) + UnitWords(n % 10, true)
  {
    UnitsDigit(n % 10, true);
    AppendEmpty(Words(n / 10, 1));
  }

  /** The tens position of a number: its higher digits, then the tens words. */
  lemma TensPosition(m: nat)
    requires m > 0
    ensures Words(m, 1) == Words(m / 10, 2) + TensWords(m % 10)
  {
    TensDigit(m % 10, m / 10 > 0);
    assert m / 10 / 10 == m / 100;
    AppendEmpty(Words(m / 10, 2));
  }

  lemma TensDigit(t: nat, hasHigher: bool)
    requires t < 10
    ensures DigitWords(t, 1, hasHigher) == TensWords(t)
  {
  }

  lemma UnitsDigit(u: nat, hasHigher: bool)
    requires u < 10
    ensures DigitWords(u, 0, hasHigher) == UnitWords(u, hasHigher)
  {
  }

  /** Words of documented examples: a bare สิบ, ยี่สิบ, and เอ็ด after higher digits. */
  lemma TenWords()
    ensures Words(10, 0) == [Place(1)]
  {
    LastTwoDigits(10);
  }

  lemma ElevenWords()
    ensures Words(11, 0) == [Place(1), Et]
  {
    LastTwoDigits(11);
  }

  lemma TwentyOneWords()
    ensures Words(21, 0) == [Yi, Place(1), Et]
  {
    LastTwoDigits(21);
  }

  lemma HundredOneWords()
    ensures Words(101, 0) == [Name(1), Place(2), Et]
  {
    LastTwoDigits(101);
  }

  lemma MillionWords()
    ensures Words(1000000, 0) == [Name(1), Lan]
  {
    WordsMillion(1000000);
  }

  lemma TwentyOneText()
    ensures FormatThaiNumber(21) == "ยี่สิบเอ็ด"
  {
    TwentyOneWords();
    RenderTriple(Yi, Place(1), Et);
    assert FormatThaiNumber(21) == Render([Yi, Place(1), Et]);
    TwentyOneLiteral(UnitNames[1]);
  }

  lemma TwentyOneLiteral(ten: string)
    requires ten == "สิบ"
    ensures "ยี่" + (ten + "เอ็ด") == "ยี่สิบเอ็ด"
  {
  }

  lemma OneMillionText()
    ensures FormatThaiNumber(1000000) == "หนึ่งล้าน"
  {
    MillionWords();
    RenderPair(Name(1), Lan);
    assert FormatThaiNumber(1000000) == Render([Name(1), Lan]);
    OneName();
    OneMillionLiteral(NumberNames[1], Million);
  }

  lemma OneName()
    ensures NumberNames[1] == "หนึ่ง"
  {
  }

  lemma OneMillionLiteral(one: string, million: string)
    requires one == "หนึ่ง" && million == "ล้าน"
    ensures one + million == "หนึ่งล้าน"
  {
  }

  lemma RenderPair(a: NumWord, b: NumWord)
    ensures Render([a, b]) == WordText(a) + WordText(b)
  {
    assert [a, b][1..] == [b];
    assert [b][1..] == [];
    assert Render([b]) == WordText(b) + Render([]);
  }

  lemma RenderTriple(a: NumWord, b: NumWord, c: NumWord)
    ensures Render([a, b, c]) == WordText(a) + (WordText(b) + WordText(c))
  {
    assert [a, b, c][1..] == [b, c];
    RenderPair(b, c);
  }
  // ---------------------------------------------------------------------
  // Baht amounts
  // ---------------------------------------------------------------------

  /**
   * A baht amount given as whole baht and satang: zero is "-", whole
   * positive baht end in บาทถ้วน, satang alone end in สตางค์, and every
   * other pair (negative ones included) reads baht then satang.
   */
  function FormatThaiBaht(baht: int, satang: int): (r: string)
    ensures r == "-" <==> baht == 0 && satang == 0
    ensures baht > 0 && satang == 0 ==> r == FormatThaiNumber(baht) + "บาทถ้วน"
    ensures baht == 0 && satang > 0 ==> r == FormatThaiNumber(satang) + "สตางค์"
    ensures !(baht >= 0 && satang == 0) && !(baht == 0 && satang > 0) ==>
      r == FormatThaiNumber(baht) + "บาท" + FormatThaiNumber(satang) + "สตางค์"
  {
    if baht == 0 && satang == 0 then "-"
    else if satang == 0 && baht > 0 then FormatThaiNumber(baht) + "บาทถ้วน"
    else if baht == 0 && satang > 0 then FormatThaiNumber(satang) + "สตางค์"
    else FormatThaiNumber(baht) + "บาท" + FormatThaiNumber(satang) + "สตางค์"
  }

  /** Rust's `%` on integers: the remainder takes the sign of the dividend. */
  function TruncRem(a: int, m: nat): (r: int)
    requires m > 0
    ensures a >= 0 ==> r == a % m
    ensures a < 0 ==> -(m as int) < r <= 0 && (-r) % m == (-a) % m
  {
    if a >= 0 then a % m else -((-a) % m)
  }

  /** `f64::round`: halves round away from zero. */
  function RoundHalfAway(x: real): int
  {
    if x >= 0.0 then (x + 0.5).Floor else -((-x + 0.5).Floor)
  }

  /** The (baht, satang) pair an amount is split into: floor, and hundredths rounded then reduced mod 100. */
  function BahtParts(amount: real): (int, int)
  {
    (amount.Floor, TruncRem(RoundHalfAway(amount * 100.0), 100))
  }

  /** An amount in baht, read exactly (binary floating-point error is not modelled). */
  function FormatThaiBahtAmount(amount: real): (r: string)
    ensures 0.0 <= amount < 0.005 ==> r == "-"
    ensures amount >= 1.0 && amount == amount.Floor as real ==> r == FormatThaiNumber(amount.Floor) + "บาทถ้วน"
  {
    BahtPartsEdges(amount);
    var (b, s) := BahtParts(amount);
    FormatThaiBaht(b, s)
  }

  /** Less than half a satang splits into nothing; a whole amount has no satang. */
  lemma BahtPartsEdges(amount: real)
    ensures 0.0 <= amount < 0.005 ==> BahtParts(amount) == (0, 0)
    ensures amount >= 0.0 && amount == amount.Floor as real ==> BahtParts(amount) == (amount.Floor, 0)
  {
    if 0.0 <= amount < 0.005 {
      assert 0.0 <= amount * 100.0 < 0.5;
      assert RoundHalfAway(amount * 100.0) == 0;
    }
    if amount >= 0.0 && amount == amount.Floor as real {
      var b := amount.Floor;
      assert amount * 100.0 == (100 * b) as real;
      assert RoundHalfAway(amount * 100.0) == 100 * b;
      assert (100 * b) % 100 == 0;
    }
  }

  /** An amount with at most two decimals splits into its baht and its satang. */
  lemma BahtPartsExact(baht: nat, satang: nat)
    requires satang < 100
    ensures BahtParts(baht as real + satang as real / 100.0) == (baht, satang)
  {
    var a := baht as real + satang as real / 100.0;
    assert a * 100.0 == (100 * baht + satang) as real;
    assert RoundHalfAway(a * 100.0) == 100 * baht + satang;
    assert (100 * baht + satang) % 100 == satang;
  }

  /**
   * Every amount with at most two decimals reads as its baht followed by
   * บาทถ้วน, its satang alone followed by สตางค์, or both, and "-" for zero.
   */
  lemma BahtReading(baht: nat, satang: nat)
    requires satang < 100
    ensures var r := FormatThaiBahtAmount(baht as real + satang as real / 100.0);
      && (baht == 0 && satang == 0 ==> r == "-")
      && (baht > 0 && satang == 0 ==> r == FormatThaiNumber(baht) + "บาทถ้วน")
      && (baht == 0 && satang > 0 ==> r == FormatThaiNumber(satang) + "สตางค์")
      && (baht > 0 && satang > 0 ==> r == FormatThaiNumber(baht) + "บาท" + FormatThaiNumber(satang) + "สตางค์")
  {
    BahtPartsExact(baht, satang);
  }

  lemma BahtExamples()
    ensures FormatThaiBahtAmount(0.0) == "-"
    ensures FormatThaiBahtAmount(100.0) == FormatThaiNumber(100) + "บาทถ้วน"
    ensures FormatThaiBahtAmount(0.25) == FormatThaiNumber(25) + "สตางค์"
    ensures FormatThaiBahtAmount(100.5) == FormatThaiNumber(100) + "บาท" + FormatThaiNumber(50) + "สตางค์"
  {
    BahtPartsExact(0, 0);
    BahtPartsExact(100, 0);
    BahtPartsExact(0, 25);
    BahtPartsExact(100, 50);
  }

  /** A negative whole amount falls through to the last case and reads a zero satang. */
  lemma NegativeWholeBaht(b: int)
    requires b < 0
    ensures FormatThaiBaht(b, 0) == FormatThaiNumber(-b) + "บาท" + NumberNames[0] + "สตางค์"
  {
    ThaiNumberIgnoresSign(b);
  }

  // ---------------------------------------------------------------------
  // Dates in the Buddhist era
  // ---------------------------------------------------------------------

  /** `month.saturating_sub(1)`: month 0 selects the same entry as month 1. */
  function MonthIndex(month: nat): nat
  {
    if month == 0 then 0 else month - 1
  }

  /** The table entry for a month, or empty past the end of the table. */
  function MonthName(names: seq<string>, month: nat): (r: string)
    ensures 1 <= month <= |names| ==> r == names[month - 1]
    ensures month > |names| ==> r == ""
    ensures month == 0 && |names| > 0 ==> r == names[0]
  {
    if MonthIndex(month) < |names| then names[MonthIndex(month)] else ""
  }

  /** Day, short month name and the last two digits of the Buddhist year, separated by spaces. */
  function FormatThaiDateShort(year: int, month: nat, day: nat): (r: string)
    ensures 1 <= month <= 12 && year + 543 >= 0 ==>
      r == NatToString(day) + " " + MonthsShort[month - 1] + " " + NatToString((year + 543) % 100)
    ensures month > 12 ==> r == NatToString(day) + "  " + IntToString(TruncRem(year + 543, 100))
  {
    NatToString(day) + " " + MonthName(MonthsShort, month) + " " + IntToString(TruncRem(year + 543, 100))
  }

  /** Day, long month name and the Buddhist year, separated by spaces. */
  function FormatThaiDateLong(year: int, month: nat, day: nat): (r: string)
    ensures 1 <= month <= 12 && year + 543 >= 0 ==>
      r == NatToString(day) + " " + MonthsLong[month - 1] + " " + NatToString(year + 543)
    ensures month > 12 ==> r == NatToString(day) + "  " + IntToString(year + 543)
  {
    NatToString(day) + " " + MonthName(MonthsLong, month) + " " + IntToString(year + 543)
  }

  /** "ปี " followed by the Buddhist year. */
  function FormatThaiYear(year: int): (r: string)
    ensures |r| > 3 && r[..3] == "ปี "
    ensures r[3..] == IntToString(year + 543)
  {
    "ปี " + IntToString(year + 543)
  }

  /** The number after "ปี " reads back as the Buddhist year, for any `i32`-style bound it fits. */
  lemma YearReadsBack(year: int, bound: nat)
    requires -(bound as int) <= year + 543 < bound
    ensures ParseSigned(FormatThaiYear(year)[3..], bound) == Some(year + 543)
  {
    ParseIntToString(year + 543, bound);
  }

  lemma NoSpaceInNames(names: seq<string>, month: nat)
    requires names == MonthsShort || names == MonthsLong
    ensures ' ' !in MonthName(names, month)
  {
    var i := MonthIndex(month);
    if i < |names| {
      assert forall j | 0 <= j < 12 :: ' ' !in MonthsShort[j] && ' ' !in MonthsLong[j];
    }
  }

  /**
   * A short date splits back at its spaces into the day, the month name and
   * the two-digit Buddhist year, and the day reads back as itself.
   */
  lemma DateShortFields(year: int, month: nat, day: nat)
    ensures var fields := Split(FormatThaiDateShort(year, month, day), ' ');
      && fields == [NatToString(day), MonthName(MonthsShort, month), IntToString(TruncRem(year + 543, 100))]
      && AllDigits(fields[0]) && DigitsValue(fields[0]) == day
  {
    DateFields(MonthsShort, month, day, IntToString(TruncRem(year + 543, 100)));
  }

  /** A long date splits back at its spaces into the day, the month name and the Buddhist year. */
  lemma DateLongFields(year: int, month: nat, day: nat)
    ensures var fields := Split(FormatThaiDateLong(year, month, day), ' ');
      && fields == [NatToString(day), MonthName(MonthsLong, month), IntToString(year + 543)]
      && AllDigits(fields[0]) && DigitsValue(fields[0]) == day
  {
    DateFields(MonthsLong, month, day, IntToString(year + 543));
  }

  lemma DateFields(names: seq<string>, month: nat, day: nat, y: string)
    requires names == MonthsShort || names == MonthsLong
    requires ' ' !in y
    ensures var fields := [NatToString(day), MonthName(names, month), y];
      && Split(NatToString(day) + " " + MonthName(names, month) + " " + y, ' ') == fields
      && DigitsValue(fields[0]) == day
  {
    NoSpaceInNames(names, month);
    NoSpaceInNumber(day);
    SplitSpaced(NatToString(day), MonthName(names, month), y);
    DigitsValueNatToString(day);
  }

  lemma NoSpaceInNumber(n: nat)
    ensures ' ' !in NatToString(n)
  {
    var s := NatToString(n);
    forall k | 0 <= k < |s| ensures s[k] != ' ' {
      assert IsDigit(s[k]);
    }
  }

  /** Three space-free fields joined by single spaces split back into themselves. */
  lemma SplitSpaced(a: string, b: string, c: string)
    requires ' ' !in a && ' ' !in b && ' ' !in c
    ensures Split(a + " " + b + " " + c, ' ') == [a, b, c]
  {
    SplitNoSep(c, ' ');
    SplitPrefix(b, c, ' ');
    assert b + " " + c == b + [' '] + c;
    assert a + " " + b + " " + c == a + [' '] + (b + " " + c);
    SplitPrefix(a, b + " " + c, ' ');
  }

  lemma DateShortExample()
    ensures FormatThaiDateShort(2025, 1, 22) == "22 " + MonthsShort[0] + " 68"
  {
    assert NatToString(22) == "22";
    assert IntToString(TruncRem(2568, 100)) == "68";
  }

  lemma DateLongExample()
    ensures FormatThaiDateLong(2025, 1, 22) == "22 " + MonthsLong[0] + " 2568"
  {
    assert NatToString(22) == "22";
    assert NatToString(2568) == NatToString(256) + "8";
    assert NatToString(256) == "256";
  }

  lemma YearExample()
    ensures FormatThaiYear(2025) == "ปี 2568"
  {
    assert NatToString(2568) == NatToString(256) + "8";
    assert NatToString(256) == "256";
  }
  // ---------------------------------------------------------------------
  // Number patterns
  // ---------------------------------------------------------------------

  /** Precision, thousands separator and decimal separator read from a pattern such as `#,###.##`. */
  datatype NumberPattern = NumberPattern(precision: nat, thousandSep: string, decimalSep: string)

  /** Index of the last character of `s` satisfying `p`, if any (`str::rfind`). */
  function LastIndexWhere(s: string, p: char -> bool): (r: Option<nat>)
    ensures r.Some? ==> r.value < |s| && p(s[r.value])
    ensures r.Some? ==> forall j | r.value < j < |s| :: !p(s[j])
    ensures r.None? ==> forall j | 0 <= j < |s| :: !p(s[j])
  {
    if |s| == 0 then None
    else if p(s[|s| - 1]) then Some(|s| - 1)
    else LastIndexWhere(s[..|s| - 1], p)
  }

  predicate IsSeparator(c: char) { c == '.' || c == ',' }
  predicate IsComma(c: char) { c == ',' }
  predicate IsPlaceholder(c: char) { c == '#' || c == '0' }

  /** Number of `#` and `0` placeholders in `s`. */
  function CountPlaceholders(s: string): (n: nat)
    ensures n <= |s|
  {
    if |s| == 0 then 0 else (if IsPlaceholder(s[0]) then 1 else 0) + CountPlaceholders(s[1..])
  }

  /**
   * Reads a number pattern. The last `.` or `,` is taken as the decimal
   * point, and the placeholders after it give the precision, kept modulo
   * 256 as the source stores it in a `u8`. A thousands separator is used
   * only when the pattern has a comma that is not that last separator. The
   * empty pattern means two decimals with grouping.
   */
  function ParseFormat(format: string): (r: NumberPattern)
    ensures r.precision < 256
    ensures r.decimalSep == (if r.precision > 0 then "." else "")
    ensures format == [] ==> r == NumberPattern(2, ",", ".")
    ensures format != [] ==>
      (r.thousandSep == "," <==>
        (exists i | 0 <= i < |format| :: format[i] == ',')
        && LastIndexWhere(format, IsComma) != LastIndexWhere(format, IsSeparator))
    ensures format != [] && LastIndexWhere(format, IsSeparator).None? ==> r.precision == 0
    ensures format != [] && LastIndexWhere(format, IsSeparator).Some? ==>
      r.precision == CountPlaceholders(format[LastIndexWhere(format, IsSeparator).value + 1..]) % 256
  {
    if format == [] then NumberPattern(2, ",", ".")
    else
      var decimalPos := LastIndexWhere(format, IsSeparator);
      var precision := match decimalPos
        case Some(pos) => CountPlaceholders(format[pos + 1..]) % 256
        case None => 0;
      var hasComma := exists i | 0 <= i < |format| :: format[i] == ',';
      var thousandSep := if hasComma && LastIndexWhere(format, IsComma) != decimalPos then "," else "";
      NumberPattern(precision, thousandSep, if precision > 0 then "." else "")
  }

  /** A pattern without `.` or `,` has no decimals. */
  lemma NoSeparatorNoDecimals(format: string)
    requires format != [] && forall j | 0 <= j < |format| :: !IsSeparator(format[j])
    ensures ParseFormat(format).precision == 0 && ParseFormat(format).decimalSep == ""
  {
  }

  /** The precision is the number of placeholders after the last `.` or `,`, modulo 256. */
  lemma PrecisionAfterLastSeparator(format: string, d: nat)
    requires d < |format| && IsSeparator(format[d])
    requires forall j | d < j < |format| :: !IsSeparator(format[j])
    ensures ParseFormat(format).precision == CountPlaceholders(format[d + 1..]) % 256
  {
    assert LastIndexWhere(format, IsSeparator) == Some(d);
  }

  /** With a `.` after the last comma, the comma groups thousands and the `.` starts the decimals. */
  lemma ParseFormatGrouped(format: string, c: nat, d: nat)
    requires c < d < |format| && format[c] == ',' && format[d] == '.'
    requires forall j | d < j < |format| :: !IsSeparator(format[j])
    ensures ParseFormat(format).thousandSep == ","
    ensures ParseFormat(format).precision == CountPlaceholders(format[d + 1..]) % 256
  {
    var last := LastIndexWhere(format, IsSeparator);
    assert last == Some(d);
    var comma := LastIndexWhere(format, IsComma);
    assert comma.Some? && comma.value != d;
  }

  /**
   * When the last separator is a comma, it is read as the decimal point:
   * `#,###` gives three decimals and no grouping.
   */
  lemma ParseFormatTrailingComma(format: string, c: nat)
    requires c < |format| && format[c] == ','
    requires forall j | c < j < |format| :: !IsSeparator(format[j])
    ensures ParseFormat(format).thousandSep == ""
    ensures ParseFormat(format).precision == CountPlaceholders(format[c + 1..]) % 256
  {
    assert LastIndexWhere(format, IsSeparator) == Some(c);
    assert LastIndexWhere(format, IsComma) == Some(c);
  }

  /** `#,###.##`: grouping and two decimals. */
  lemma GroupedPatternExample()
    ensures ParseFormat("#,###.##") == NumberPattern(2, ",", ".")
  {
    ParseFormatGrouped("#,###.##", 1, 5);
    PlaceholdersExample("#,###.##", 6, 2);
  }

  /** `#.##`: two decimals and, without a comma, no grouping. */
  lemma PlainDecimalExample()
    ensures ParseFormat("#.##") == NumberPattern(2, "", ".")
  {
    var f := "#.##";
    assert IsSeparator(f[1]);
    assert forall j | 1 < j < |f| :: !IsSeparator(f[j]);
    assert forall i | 0 <= i < |f| :: f[i] != ',';
    PlaceholdersExample(f, 2, 2);
  }

  /** `#,###`: the comma is read as the decimal point, giving three decimals. */
  lemma TrailingCommaExample()
    ensures ParseFormat("#,###") == NumberPattern(3, "", ".")
  {
    ParseFormatTrailingComma("#,###", 1);
    PlaceholdersExample("#,###", 2, 3);
  }

  lemma PlaceholdersExample(format: string, from: nat, n: nat)
    requires from <= |format| && n == |format| - from
    requires forall j | from <= j < |format| :: format[j] == '#'
    ensures CountPlaceholders(format[from..]) == n
  {
    AllPlaceholders(format[from..]);
  }

  lemma {:induction false} AllPlaceholders(s: string)
    requires forall j | 0 <= j < |s| :: s[j] == '#'
    ensures CountPlaceholders(s) == |s|
  {
    if |s| > 0 {
      AllPlaceholders(s[1..]);
    }
  }

  /** Digits grouped in threes from the right with `c` between groups. */
  function Group(t: string, c: char): (r: string)
    decreases |t|
  {
    if |t| <= 3 then t else Group(t[..|t| - 3], c) + [c] + t[|t| - 3..]
  }

  /** Putting one more character in front of a grouped string. */
  lemma {:induction false} GroupCons(x: char, t: string, c: char)
    ensures Group([x] + t, c)
         == if |t| > 0 && |t| % 3 == 0 then [x, c] + Group(t, c) else [x] + Group(t, c)
    decreases |t|
  {
    var s := [x] + t;
    if |t| <= 3 {
      if |t| == 3 {
        GroupThree(x, t, c);
      }
    } else {
      GroupCons(x, t[..|t| - 3], c);
      GroupConsStep(x, t, c);
    }
  }

  lemma GroupThree(x: char, t: string, c: char)
    requires |t| == 3
    ensures Group([x] + t, c) == [x, c] + Group(t, c)
  {
    var s := [x] + t;
    assert s[..|s| - 3] == [x] && s[|s| - 3..] == t;
    assert [x] + [c] + t == [x, c] + t;
  }

  /** The step of `GroupCons` for more than three characters, from the claim for all but the last three. */
  lemma GroupConsStep(x: char, t: string, c: char)
    requires |t| > 3
    requires var hi := t[..|t| - 3];
      Group([x] + hi, c) == if |hi| % 3 == 0 then [x, c] + Group(hi, c) else [x] + Group(hi, c)
    ensures Group([x] + t, c) == if |t| % 3 == 0 then [x, c] + Group(t, c) else [x] + Group(t, c)
  {
    var hi, lo := t[..|t| - 3], t[|t| - 3..];
    ConsSlices(x, t, 3);
    var g := Group(hi, c);
    var head: string := if |t| % 3 == 0 then [x, c] else [x];
    AppendAssoc(head, g, [c]);
    AppendAssoc(head, g + [c], lo);
  }

  /** Cutting `k` characters off the end of `[x] + t` cuts them off `t`. */
  lemma ConsSlices(x: char, t: string, k: nat)
    requires k <= |t|
    ensures ([x] + t)[..|t| + 1 - k] == [x] + t[..|t| - k]
    ensures ([x] + t)[|t| + 1 - k..] == t[|t| - k..]
  {
  }

  /**
   * `format_with_thousands`: the decimal text of `n` walked from its last
   * character, inserting the separator's first character before every
   * third one. An empty separator leaves the text as is.
   */
  method FormatWithThousands(n: int, sep: string) returns (r: string)
    ensures sep == [] ==> r == IntToString(n)
    ensures sep != [] ==> r == Group(IntToString(n), sep[0])
  {
    var s := IntToString(n);
    if sep == [] {
      return s;
    }
    var c := sep[0];
    r := [];
    var i := 0;
    while i < |s|
      invariant 0 <= i <= |s|
      invariant r == Group(Tail(s, i), c)
    {
      var x := s[|s| - 1 - i];
      GroupStep(s, i, c);
      if i > 0 && i % 3 == 0 {
        r := [c] + r;
      }
      r := [x] + r;
      i := i + 1;
    }
    assert Tail(s, i) == s;
  }

  /** The last `i` characters of `s`. */
  function Tail(s: string, i: nat): string
    requires i <= |s|
  {
    s[|s| - i..]
  }

  /** One step of the loop of `FormatWithThousands`, walking `s` from its end. */
  lemma GroupStep(s: string, i: nat, c: char)
    requires i < |s|
    ensures var x, g := s[|s| - 1 - i], Group(Tail(s, i), c);
      (if i > 0 && i % 3 == 0 then [x] + ([c] + g) else [x] + g) == Group(Tail(s, i + 1), c)
  {
    var x, t := s[|s| - 1 - i], s[|s| - i..];
    SuffixCons(s, i);
    GroupCons(x, t, c);
    ConsTwo(x, c, Group(t, c));
  }

  lemma SuffixCons(s: string, i: nat)
    requires i < |s|
    ensures |s[|s| - i..]| == i
    ensures s[|s| - (i + 1)..] == [s[|s| - 1 - i]] + s[|s| - i..]
  {
  }

  lemma ConsTwo(x: char, c: char, g: string)
    ensures [x] + ([c] + g) == [x, c] + g
  {
  }

  /** Removing the separators from a grouped string gives the digits back. */
  lemma {:induction false} GroupRemove(t: string, c: char)
    requires c !in t
    ensures Remove(Group(t, c), c) == t
    decreases |t|
  {
    if |t| > 3 {
      var hi, lo := t[..|t| - 3], t[|t| - 3..];
      GroupSplit(t, c);
      GroupRemove(hi, c);
      var g := Group(hi, c);
      RemoveAppend(g + [c], lo, c);
      RemoveAppend(g, [c], c);
      assert Remove([c], c) == [];
      RemoveNone(lo, c);
      assert Remove(g + [c], c) == hi;
    } else {
      RemoveNone(t, c);
    }
  }

  /** A string of more than three characters: its last three after a separator. */
  lemma GroupSplit(t: string, c: char)
    requires c !in t && |t| > 3
    ensures var hi, lo := t[..|t| - 3], t[|t| - 3..];
      && c !in hi && c !in lo && t == hi + lo
      && Group(t, c) == Group(hi, c) + [c] + lo
  {
    var hi, lo := t[..|t| - 3], t[|t| - 3..];
    assert forall k | 0 <= k < |hi| :: hi[k] == t[k];
    assert forall k | 0 <= k < |lo| :: lo[k] == t[|t| - 3 + k];
  }

  /**
   * In a grouped string of `c`-free digits, `c` stands exactly at the
   * positions that are a multiple of four from the end, and the length
   * grows by one separator per full group after the first.
   */
  lemma {:induction false} GroupShape(t: string, c: char)
    requires |t| >= 1 && c !in t
    ensures |Group(t, c)| == |t| + (|t| - 1) / 3
    ensures forall j | 0 <= j < |Group(t, c)| :: Group(t, c)[j] == c <==> (|Group(t, c)| - j) % 4 == 0
    decreases |t|
  {
    if |t| > 3 {
      var hi, lo := t[..|t| - 3], t[|t| - 3..];
      GroupSplit(t, c);
      GroupShape(hi, c);
      GroupShapeStep(Group(hi, c), lo, c);
      assert (|t| - 1) / 3 == (|hi| - 1) / 3 + 1;
    } else {
      var r := Group(t, c);
      assert r == t;
      forall j | 0 <= j < |r| ensures r[j] == c <==> (|r| - j) % 4 == 0 {
        assert r[j] == t[j];
      }
    }
  }

  /** A separator and three more characters keep every fourth character from the end a separator. */
  lemma GroupShapeStep(g: string, lo: string, c: char)
    requires |lo| == 3 && c !in lo
    requires forall j | 0 <= j < |g| :: g[j] == c <==> (|g| - j) % 4 == 0
    ensures var r := g + [c] + lo;
      forall j | 0 <= j < |r| :: r[j] == c <==> (|r| - j) % 4 == 0
  {
    var r := g + [c] + lo;
    forall j | 0 <= j < |r| ensures r[j] == c <==> (|r| - j) % 4 == 0 {
      if j < |g| {
        assert r[j] == g[j];
        assert (|r| - j) % 4 == (|g| - j) % 4;
      } else if j == |g| {
      } else {
        assert r[j] == lo[j - |g| - 1];
      }
    }
  }

  /** `s` without the occurrences of `c`. */
  function Remove(s: string, c: char): string
  {
    if |s| == 0 then [] else (if s[0] == c then [] else [s[0]]) + Remove(s[1..], c)
  }

  lemma {:induction false} RemoveAppend(a: string, b: string, c: char)
    ensures Remove(a + b, c) == Remove(a, c) + Remove(b, c)
  {
    if |a| > 0 {
      assert (a + b)[1..] == a[1..] + b;
      RemoveAppend(a[1..], b, c);
    } else {
      assert a + b == b;
    }
  }

  lemma {:induction false} RemoveNone(s: string, c: char)
    requires c !in s
    ensures Remove(s, c) == s
  {
    if |s| > 0 {
      RemoveNone(s[1..], c);
    }
  }

  /** Grouping a negative number puts a separator after the sign: -100 becomes "-,100". */
  lemma NegativeGrouping()
    ensures Group(IntToString(-100), ',') == "-,100"
  {
    assert IntToString(-100) == "-100";
    assert "-100"[..1] == "-" && "-100"[1..] == "100";
  }
}
