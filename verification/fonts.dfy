/**
 * Embedded fonts: families of up to four variants with fallback, the set of
 * characters a font has been used for, glyph-id encoding of text, text
 * widths, and the ToUnicode CMap listing the used characters.
 *
 * The TrueType face is reduced to the two tables read here: the character
 * to glyph-id map and the glyph-id to horizontal advance map.
 */
module Fonts {
  import opened Results
  import opened Strs
  import opened Bytes
  import opened PdfErrors

  type u16 = n: nat | n < 0x10000

  datatype FontWeight = Regular | Bold
  datatype FontStyle = Normal | Italic

  /** The em size a TrueType `head` table may declare (the parser rejects others). */
  type UnitsPerEm = n: nat | 16 <= n <= 16384 witness 1000

  /** The tables of a parsed face that the PDF core consults. */
  datatype Face = Face(glyphIndex: map<char, u16>, advance: map<u16, u16>, unitsPerEm: UnitsPerEm)

  datatype FontData = FontData(name: string, ttfData: seq<byte>, usedChars: set<char>, face: Option<Face>)

  datatype FontFamily = FontFamily(
    regular: Option<FontData>,
    bold: Option<FontData>,
    italic: Option<FontData>,
    boldItalic: Option<FontData>)

  // ---------------------------------------------------------------------
  // Variant selection
  // ---------------------------------------------------------------------

  /** The four variant slots of a family. */
  datatype Slot = RegularSlot | BoldSlot | ItalicSlot | BoldItalicSlot

  function Variant(f: FontFamily, s: Slot): Option<FontData>
  {
    match s
    case RegularSlot => f.regular
    case BoldSlot => f.bold
    case ItalicSlot => f.italic
    case BoldItalicSlot => f.boldItalic
  }

  /**
   * The order in which slots are tried for a weight and style: the exact
   * variant first, then the ones sharing its weight or style, regular last.
   */
  function Preference(w: FontWeight, s: FontStyle): (slots: seq<Slot>)
    ensures |slots| > 0 && slots[|slots| - 1] == RegularSlot
  {
    match (w, s)
    case (Bold, Italic) => [BoldItalicSlot, BoldSlot, ItalicSlot, RegularSlot]
    case (Bold, Normal) => [BoldSlot, RegularSlot]
    case (Regular, Italic) => [ItalicSlot, RegularSlot]
    case (Regular, Normal) => [RegularSlot]
  }

  /** The first slot of `slots[i..]` that holds a variant. */
  function FirstPresent(f: FontFamily, slots: seq<Slot>, i: nat): (r: Option<Slot>)
    requires i <= |slots|
    ensures r.Some? ==> r.value in slots[i..] && Variant(f, r.value).Some?
    ensures r.None? <==> forall k | i <= k < |slots| :: Variant(f, slots[k]).None?
    decreases |slots| - i
  {
    if i == |slots| then None
    else if Variant(f, slots[i]).Some? then Some(slots[i])
    else FirstPresent(f, slots, i + 1)
  }

  /** The variant for a weight and style, falling back along `Option::or` chains. */
  function GetVariant(f: FontFamily, w: FontWeight, s: FontStyle): (r: Option<FontData>)
    ensures f.regular.Some? ==> r.Some?
    ensures r.None? <==> forall k | 0 <= k < |Preference(w, s)| :: Variant(f, Preference(w, s)[k]).None?
  {
    var p := Preference(w, s);
    match (w, s)
    case (Bold, Italic) =>
      assert Variant(f, p[0]) == f.boldItalic && Variant(f, p[1]) == f.bold;
      assert Variant(f, p[2]) == f.italic && Variant(f, p[3]) == f.regular;
      f.boldItalic.Or(f.bold).Or(f.italic).Or(f.regular)
    case (Bold, Normal) =>
      assert Variant(f, p[0]) == f.bold && Variant(f, p[1]) == f.regular;
      f.bold.Or(f.regular)
    case (Regular, Italic) =>
      assert Variant(f, p[0]) == f.italic && Variant(f, p[1]) == f.regular;
      f.italic.Or(f.regular)
    case (Regular, Normal) =>
      assert Variant(f, p[0]) == f.regular;
      f.regular
  }

  /**
   * The slot `get_variant_mut` hands out, from its `is_some` if-chain.
   */
  function GetVariantSlot(f: FontFamily, w: FontWeight, s: FontStyle): (r: Option<Slot>)
    ensures r.Some? ==> Variant(f, r.value).Some?
  {
    match (w, s)
    case (Bold, Italic) =>
      if f.boldItalic.Some? then Some(BoldItalicSlot)
      else if f.bold.Some? then Some(BoldSlot)
      else if f.italic.Some? then Some(ItalicSlot)
      else if f.regular.Some? then Some(RegularSlot)
      else None
    case (Bold, Normal) =>
      if f.bold.Some? then Some(BoldSlot)
      else if f.regular.Some? then Some(RegularSlot)
      else None
    case (Regular, Italic) =>
      if f.italic.Some? then Some(ItalicSlot)
      else if f.regular.Some? then Some(RegularSlot)
      else None
    case (Regular, Normal) =>
      if f.regular.Some? then Some(RegularSlot) else None
  }

  /**
   * Both lookups follow the preference order: `get_variant` returns the
   * first present variant in it, and `get_variant_mut` selects the slot
   * holding that very variant.
   */
  lemma VariantFallback(f: FontFamily, w: FontWeight, s: FontStyle)
    ensures GetVariantSlot(f, w, s) == FirstPresent(f, Preference(w, s), 0)
    ensures GetVariant(f, w, s) ==
      (match FirstPresent(f, Preference(w, s), 0) case None => None case Some(slot) => Variant(f, slot))
  {
    var p := Preference(w, s);
    if |p| >= 4 {
      var _ := FirstPresent(f, p, 3);
    }
    if |p| >= 3 {
      var _ := FirstPresent(f, p, 2);
    }
    if |p| >= 2 {
      var _ := FirstPresent(f, p, 1);
    }
  }

  /** Replaces the variant `get_variant_mut` selects; no other slot changes. */
  function UpdateVariant(f: FontFamily, w: FontWeight, s: FontStyle, g: FontData -> FontData): (r: FontFamily)
    ensures GetVariantSlot(f, w, s).None? ==> r == f
    ensures GetVariantSlot(f, w, s).Some? ==>
      var slot := GetVariantSlot(f, w, s).value;
      && Variant(r, slot) == Some(g(Variant(f, slot).value))
      && forall other: Slot | other != slot :: Variant(r, other) == Variant(f, other)
  {
    match GetVariantSlot(f, w, s)
    case None => f
    case Some(RegularSlot) => f.(regular := Some(g(f.regular.value)))
    case Some(BoldSlot) => f.(bold := Some(g(f.bold.value)))
    case Some(ItalicSlot) => f.(italic := Some(g(f.italic.value)))
    case Some(BoldItalicSlot) => f.(boldItalic := Some(g(f.boldItalic.value)))
  }

  /** The data name `build` gives to each slot. */
  function DataName(family: string, slot: Slot): (r: string)
  {
    match slot
    case RegularSlot => family + "-regular"
    case BoldSlot => family + "-bold"
    case ItalicSlot => family + "-italic"
    case BoldItalicSlot => family + "-bold-italic"
  }

  /** The resource name `get_variant_name` gives a weight and style. */
  function GetVariantName(family: string, w: FontWeight, s: FontStyle): (r: string)
    ensures |r| >= |family| && r[..|family|] == family
    ensures (w, s) == (Regular, Normal) <==> r == family
  {
    match (w, s)
    case (Bold, Italic) => family + "-bold-italic"
    case (Bold, Normal) => family + "-bold"
    case (Regular, Italic) => family + "-italic"
    case (Regular, Normal) => family
  }

  /**
   * The variant name is the data name of the exactly matching slot, except
   * for regular weight and normal style, whose name is the bare family
   * name while the data is named `{family}-regular`.
   */
  lemma VariantNameIsDataName(family: string, w: FontWeight, s: FontStyle)
    ensures (w, s) != (Regular, Normal) ==> GetVariantName(family, w, s) == DataName(family, Preference(w, s)[0])
    ensures (w, s) == (Regular, Normal) ==> GetVariantName(family, w, s) != DataName(family, RegularSlot)
  {
    if (w, s) == (Regular, Normal) {
      assert |DataName(family, RegularSlot)| == |family| + 8;
    }
  }

  // ---------------------------------------------------------------------
  // Building a family
  // ---------------------------------------------------------------------

  /** TrueType bytes per variant, as collected by `FontFamilyBuilder`. */
  datatype FontFamilyBuilder = FontFamilyBuilder(
    regular: Option<seq<byte>>,
    bold: Option<seq<byte>>,
    italic: Option<seq<byte>>,
    boldItalic: Option<seq<byte>>)

  function BuilderSlot(b: FontFamilyBuilder, slot: Slot): Option<seq<byte>>
  {
    match slot
    case RegularSlot => b.regular
    case BoldSlot => b.bold
    case ItalicSlot => b.italic
    case BoldItalicSlot => b.boldItalic
  }

  /**
   * `FontData::from_ttf`: the face parser is a parameter, returning the
   * parsed tables or the parser's error text.
   */
  function FromTtf(name: string, data: seq<byte>, parse: seq<byte> -> Result<Face, string>): (r: Result<FontData, PdfError>)
    ensures r.Ok? <==> parse(data).Ok?
    ensures r.Ok? ==> r.value == FontData(name, data, {}, Some(parse(data).value))
    ensures r.Err? ==> r.error == FontParseError(parse(data).error)
  {
    match parse(data)
    case Ok(face) => Ok(FontData(name, data, {}, Some(face)))
    case Err(e) => Err(FontParseError(e))
  }

  /** Parses an optional variant; absent stays absent. */
  function BuildSlot(b: FontFamilyBuilder, family: string, slot: Slot,
                     parse: seq<byte> -> Result<Face, string>): (r: Result<Option<FontData>, PdfError>)
    ensures r.Err? <==> !SlotParses(b, slot, parse)
    ensures r.Err? ==> r.error == FontParseError(parse(BuilderSlot(b, slot).value).error)
  {
    match BuilderSlot(b, slot)
    case None => Ok(None)
    case Some(data) =>
      match FromTtf(DataName(family, slot), data, parse)
      case Ok(fd) => Ok(Some(fd))
      case Err(e) => Err(e)
  }

  const MissingRegular: string := "FontFamily must have at least a regular variant"

  /** The variants are parsed in the order regular, bold, italic, bold italic. */
  const BuildOrder: seq<Slot> := [RegularSlot, BoldSlot, ItalicSlot, BoldItalicSlot]

  /** The builder's bytes for `slot` are absent or parse. */
  predicate SlotParses(b: FontFamilyBuilder, slot: Slot, parse: seq<byte> -> Result<Face, string>)
  {
    BuilderSlot(b, slot).None? || parse(BuilderSlot(b, slot).value).Ok?
  }

  /**
   * The `i`-th slot in build order is the first whose bytes the parser
   * rejects, and `e` is that rejection.
   */
  predicate FirstRejected(b: FontFamilyBuilder, parse: seq<byte> -> Result<Face, string>, i: nat, e: PdfError)
    requires i < 4
  {
    && BuilderSlot(b, BuildOrder[i]).Some? && parse(BuilderSlot(b, BuildOrder[i]).value).Err?
    && e == FontParseError(parse(BuilderSlot(b, BuildOrder[i]).value).error)
    && forall j | 0 <= j < i :: SlotParses(b, BuildOrder[j], parse)
  }

  /**
   * Builds a family: regular bytes are required, and the first variant the
   * parser rejects fails the whole build.
   */
  function Build(b: FontFamilyBuilder, family: string, parse: seq<byte> -> Result<Face, string>): (r: Result<FontFamily, PdfError>)
    ensures b.regular.None? ==> r == Err(FontParseError(MissingRegular))
    ensures r.Ok? ==> r.value.regular.Some?
    ensures r.Ok? ==> forall slot: Slot ::
      match BuilderSlot(b, slot)
      case None => Variant(r.value, slot).None?
      case Some(data) =>
        && parse(data).Ok?
        && Variant(r.value, slot) == Some(FontData(DataName(family, slot), data, {}, Some(parse(data).value)))
    ensures r.Err? && b.regular.Some? ==> exists i | 0 <= i < 4 :: FirstRejected(b, parse, i, r.error)
  {
    if b.regular.None? then Err(FontParseError(MissingRegular))
    else
      match BuildSlot(b, family, RegularSlot, parse)
      case Err(e) => assert FirstRejected(b, parse, 0, e); Err(e)
      case Ok(regular) =>
        match BuildSlot(b, family, BoldSlot, parse)
        case Err(e) => assert FirstRejected(b, parse, 1, e); Err(e)
        case Ok(bold) =>
          match BuildSlot(b, family, ItalicSlot, parse)
          case Err(e) => assert FirstRejected(b, parse, 2, e); Err(e)
          case Ok(italic) =>
            match BuildSlot(b, family, BoldItalicSlot, parse)
            case Err(e) => assert FirstRejected(b, parse, 3, e); Err(e)
            case Ok(boldItalic) => Ok(FontFamily(regular, bold, italic, boldItalic))
  }

  /** A built family answers every weight and style. */
  lemma BuiltFamilyResolves(b: FontFamilyBuilder, family: string, parse: seq<byte> -> Result<Face, string>,
                            w: FontWeight, s: FontStyle)
    requires Build(b, family, parse).Ok?
    ensures GetVariant(Build(b, family, parse).value, w, s).Some?
  {
    assert Variant(Build(b, family, parse).value, RegularSlot).Some?;
  }

  // ---------------------------------------------------------------------
  // Glyphs, widths and used characters
  // ---------------------------------------------------------------------

  /** The glyph id of `c`; none without a face or when the face lacks `c`. */
  function GlyphId(fd: FontData, c: char): (r: Option<u16>)
    ensures r.Some? <==> fd.face.Some? && c in fd.face.value.glyphIndex
  {
    match fd.face
    case None => None
    case Some(face) => if c in face.glyphIndex then Some(face.glyphIndex[c]) else None
  }

  /** Glyph id 0 is the missing-glyph glyph, so it does not count. */
  function HasGlyph(fd: FontData, c: char): (b: bool)
    ensures b <==> GlyphId(fd, c).Some? && GlyphId(fd, c).value != 0
    ensures fd.face.None? ==> !b
  {
    match GlyphId(fd, c)
    case Some(id) => id != 0
    case None => false
  }

  /** The horizontal advance of `c`'s glyph, when the face records one. */
  function GlyphAdvance(fd: FontData, c: char): (r: Option<u16>)
    ensures r.Some? ==> GlyphId(fd, c).Some?
    ensures GlyphId(fd, c).Some? && GlyphId(fd, c).value in fd.face.value.advance ==>
      r == Some(fd.face.value.advance[GlyphId(fd, c).value])
    ensures GlyphId(fd, c).Some? && GlyphId(fd, c).value !in fd.face.value.advance ==> r.None?
  {
    match GlyphId(fd, c)
    case None => None
    case Some(id) => if id in fd.face.value.advance then Some(fd.face.value.advance[id]) else None
  }

  /** An advance, or 0 for a character without one (the `filter_map`). */
  function AdvanceOr0(fd: FontData, c: char): nat
  {
    match GlyphAdvance(fd, c)
    case Some(a) => a
    case None => 0
  }

  /** Width of `text` in font units: the sum of the advances it has. */
  function TextWidth(fd: FontData, text: string): (w: nat)
    ensures text == [] ==> w == 0
    ensures |text| == 1 ==> w == AdvanceOr0(fd, text[0])
    ensures w <= 0xFFFF * |text|
  {
    if |text| == 0 then 0 else AdvanceOr0(fd, text[0]) + TextWidth(fd, text[1..])
  }

  /** The face's em size, or 1000 without a face. */
  function EmSize(fd: FontData): (n: nat)
    ensures n > 0
  {
    match fd.face
    case Some(face) => face.unitsPerEm
    case None => 1000
  }

  /** Width of `text` in points at `size`: font units scaled by size per em. */
  function WidthPoints(fd: FontData, text: string, size: real): (w: real)
    ensures w * EmSize(fd) as real == TextWidth(fd, text) as real * size
  {
    TextWidth(fd, text) as real / EmSize(fd) as real * size
  }

  /** Widths add up over concatenation. */
  lemma {:induction false} TextWidthAppend(fd: FontData, a: string, b: string)
    ensures TextWidth(fd, a + b) == TextWidth(fd, a) + TextWidth(fd, b)
  {
    if |a| == 0 {
      assert a + b == b;
    } else {
      assert (a + b)[0] == a[0];
      assert (a + b)[1..] == a[1..] + b;
      TextWidthAppend(fd, a[1..], b);
    }
  }

  /**
   * Records the characters of `text` as used; name, bytes and face are
   * untouched.
   */
  function AddChars(fd: FontData, text: string): (r: FontData)
    ensures r.name == fd.name && r.ttfData == fd.ttfData && r.face == fd.face
    ensures forall c :: c in r.usedChars <==> c in fd.usedChars || c in text
    decreases |text|
  {
    if |text| == 0 then fd
    else
      var r := AddChars(fd.(usedChars := fd.usedChars + {text[0]}), text[1..]);
      assert forall c :: c in text <==> c == text[0] || c in text[1..];
      r
  }

  /** Adding characters only grows the set, and adding them twice changes nothing. */
  lemma AddCharsMonotoneIdempotent(fd: FontData, text: string)
    ensures fd.usedChars <= AddChars(fd, text).usedChars
    ensures AddChars(AddChars(fd, text), text) == AddChars(fd, text)
  {
    var once := AddChars(fd, text);
    var twice := AddChars(once, text);
    assert twice.usedChars == once.usedChars;
  }

  // ---------------------------------------------------------------------
  // Hex glyph encoding for `Tj`
  // ---------------------------------------------------------------------

  function GlyphOr0(fd: FontData, c: char): u16
  {
    match GlyphId(fd, c)
    case Some(id) => id
    case None => 0
  }

  /** Four upper-case hex digits of the glyph id of `c`. */
  function GlyphHex(fd: FontData, c: char): (r: string)
    ensures |r| == 4 && HexDigitsValue(r) == GlyphOr0(fd, c)
  {
    HexPadValue(GlyphOr0(fd, c), 4);
    HexPad(GlyphOr0(fd, c), 4)
  }

  /**
   * A character counts as covered exactly when its hex encoding writes a
   * glyph other than the missing glyph 0.
   */
  lemma HasGlyphIffEncodedNonZero(fd: FontData, c: char)
    ensures HasGlyph(fd, c) <==> HexDigitsValue(GlyphHex(fd, c)) != 0
  {
  }

  function GlyphHexes(fd: FontData, text: string): (r: string)
    ensures |r| == 4 * |text|
    ensures forall i | 0 <= i < |text| :: r[4 * i..4 * i + 4] == GlyphHex(fd, text[i])
  {
    if |text| == 0 then []
    else
      var rest := GlyphHexes(fd, text[1..]);
      var r := GlyphHex(fd, text[0]) + rest;
      assert forall i | 1 <= i < |text| :: r[4 * i..4 * i + 4] == rest[4 * (i - 1)..4 * (i - 1) + 4];
      r
  }

  /**
   * The hex string shown by `Tj`: one four-digit glyph id per character,
   * in angle brackets; characters without a glyph encode as 0.
   */
  function EncodeTextHex(fd: FontData, text: string): (r: string)
    ensures |r| == 2 + 4 * |text| && r[0] == '<' && r[|r| - 1] == '>'
    ensures text == [] ==> r == "<>"
  {
    "<" + GlyphHexes(fd, text) + ">"
  }

  /** Each group of four digits reads back as the glyph id of its character. */
  lemma EncodeTextHexDecodes(fd: FontData, text: string, i: nat)
    requires i < |text|
    ensures var r := EncodeTextHex(fd, text);
      HexDigitsValue(r[1 + 4 * i..5 + 4 * i]) == GlyphOr0(fd, text[i])
  {
    var h := GlyphHexes(fd, text);
    assert EncodeTextHex(fd, text)[1 + 4 * i..5 + 4 * i] == h[4 * i..4 * i + 4];
  }

  // ---------------------------------------------------------------------
  // ToUnicode CMap
  // ---------------------------------------------------------------------

  predicate Increasing(cs: seq<char>)
  {
    forall i, j | 0 <= i < j < |cs| :: cs[i] < cs[j]
  }

  lemma MinExists(s: set<char>)
    requires s != {}
    ensures exists m | m in s :: forall c | c in s :: m <= c
    decreases |s|
  {
    var x :| x in s;
    if s - {x} != {} {
      MinExists(s - {x});
      var m :| m in s - {x} && forall c | c in s - {x} :: m <= c;
      var least := if x < m then x else m;
      forall c | c in s ensures least <= c {
        if c != x {
          assert c in s - {x};
        }
      }
    } else {
      assert s == {x};
    }
  }

  function MinChar(s: set<char>): (m: char)
    requires s != {}
    ensures m in s && forall c | c in s :: m <= c
  {
    MinExists(s);
    var m :| m in s && forall c | c in s :: m <= c;
    m
  }

  /** The characters of `s` by increasing code point. */
  function SortedChars(s: set<char>): (cs: seq<char>)
    ensures |cs| == |s|
    ensures forall c :: c in cs <==> c in s
    ensures Increasing(cs)
    decreases |s|
  {
    if s == {} then []
    else
      var m := MinChar(s);
      var rest := SortedChars(s - {m});
      IncreasingCons(m, rest, s - {m});
      [m] + rest
  }

  lemma IncreasingCons(m: char, rest: seq<char>, s: set<char>)
    requires Increasing(rest) && m !in s
    requires forall c :: c in rest <==> c in s
    requires forall c | c in s :: m <= c
    ensures Increasing([m] + rest)
  {
    var cs := [m] + rest;
    forall i, j | 0 <= i < j < |cs| ensures cs[i] < cs[j] {
      assert cs[j] == rest[j - 1] && cs[j] in s;
      if i > 0 {
        assert cs[i] == rest[i - 1];
      }
    }
  }

  /** `slice::chunks(n)`: consecutive pieces of `n`, the last one possibly shorter. */
  function Chunks<T>(xs: seq<T>, n: nat): (cs: seq<seq<T>>)
    requires n > 0
    ensures Concat(cs) == xs
    ensures forall i | 0 <= i < |cs| :: 0 < |cs[i]| <= n
    ensures forall i | 0 <= i < |cs| - 1 :: |cs[i]| == n
    decreases |xs|
  {
    if |xs| == 0 then []
    else if |xs| <= n then [xs]
    else
      var r := [xs[..n]] + Chunks(xs[n..], n);
      assert xs == xs[..n] + xs[n..];
      r
  }

  const CMapHeader: string :=
    "/CIDInit /ProcSet findresource begin\n"
    + "12 dict begin\n"
    + "begincmap\n"
    + "/CIDSystemInfo << /Registry (Adobe) /Ordering (UCS) /Supplement 0 >> def\n"
    + "/CMapName /Adobe-Identity-UCS def\n"
    + "/CMapType 2 def\n"
    + "1 begincodespacerange\n"
    + "<0000> <FFFF>\n"
    + "endcodespacerange\n"

  const CMapFooter: string :=
    "endcmap\n"
    + "CMapName currentdict /CMap defineresource pop\n"
    + "end\n"
    + "end\n"

  /** `<gid> <code>` for one character, both at least four hex digits. */
  function CMapEntry(fd: FontData, c: char): (line: string)
    ensures |line| >= 12
    ensures line[0] == '<' && line[5] == '>' && line[6] == ' ' && line[7] == '<'
    ensures HexDigitsValue(line[1..5]) == GlyphOr0(fd, c)
    ensures HexDigitsValue(line[8..|line| - 2]) == c as nat
    ensures line[|line| - 2..] == ">\n"
  {
    HexPadValue(c as nat, 4);
    var code := HexPad(c as nat, 4);
    var line := "<" + GlyphHex(fd, c) + "> <" + code + ">\n";
    assert line[1..5] == GlyphHex(fd, c);
    assert line[8..|line| - 2] == code;
    line
  }

  function CMapEntries(fd: FontData, cs: seq<char>): (r: seq<string>)
    ensures |r| == |cs|
    ensures forall i | 0 <= i < |cs| :: r[i] == CMapEntry(fd, cs[i])
  {
    if |cs| == 0 then [] else [CMapEntry(fd, cs[0])] + CMapEntries(fd, cs[1..])
  }

  /** One `bfchar` section: its entry count, the entries, and the closing line. */
  function BfCharSection(fd: FontData, chunk: seq<char>): string
  {
    NatToString(|chunk|) + " beginbfchar\n" + Concat(CMapEntries(fd, chunk)) + "endbfchar\n"
  }

  function BfCharSections(fd: FontData, chunks: seq<seq<char>>): (r: seq<string>)
    ensures |r| == |chunks|
    ensures forall i | 0 <= i < |chunks| :: r[i] == BfCharSection(fd, chunks[i])
  {
    if |chunks| == 0 then [] else [BfCharSection(fd, chunks[0])] + BfCharSections(fd, chunks[1..])
  }

  /** The used characters by code point, in sections of at most 100. */
  function CMapChunks(fd: FontData): (chunks: seq<seq<char>>)
    ensures Concat(chunks) == SortedChars(fd.usedChars)
    ensures forall i | 0 <= i < |chunks| :: 0 < |chunks[i]| <= 100
    ensures forall i | 0 <= i < |chunks| - 1 :: |chunks[i]| == 100
  {
    Chunks(SortedChars(fd.usedChars), 100)
  }

  /**
   * The ToUnicode CMap: fixed header, one `bfchar` section per chunk of
   * used characters, fixed footer.
   */
  function GenerateToUnicodeCMap(fd: FontData): (cmap: string)
    ensures |cmap| >= |CMapHeader| + |CMapFooter|
    ensures cmap[..|CMapHeader|] == CMapHeader
    ensures cmap[|cmap| - |CMapFooter|..] == CMapFooter
    ensures fd.usedChars == {} ==> cmap == CMapHeader + CMapFooter
  {
    var body := Concat(BfCharSections(fd, CMapChunks(fd)));
    assert fd.usedChars == {} ==> CMapChunks(fd) == [];
    Frame(CMapHeader, body, CMapFooter);
    CMapHeader + body + CMapFooter
  }

  lemma Frame(h: string, body: string, t: string)
    ensures var s := h + body + t;
      && |s| >= |h| + |t| && s[..|h|] == h && s[|s| - |t|..] == t
  {
    var s := h + body + t;
    assert s[..|h|] == h;
    assert s[|s| - |t|..] == t;
  }

  /** The entry lines of each section, section by section. */
  function SectionEntries(fd: FontData, chunks: seq<seq<char>>): (r: seq<seq<string>>)
    ensures |r| == |chunks|
    ensures forall i | 0 <= i < |chunks| :: r[i] == CMapEntries(fd, chunks[i])
  {
    if |chunks| == 0 then [] else [CMapEntries(fd, chunks[0])] + SectionEntries(fd, chunks[1..])
  }

  lemma CMapEntriesAppend(fd: FontData, a: seq<char>, b: seq<char>)
    ensures CMapEntries(fd, a + b) == CMapEntries(fd, a) + CMapEntries(fd, b)
  {
    var l, r := CMapEntries(fd, a + b), CMapEntries(fd, a) + CMapEntries(fd, b);
    assert |l| == |r|;
    forall i | 0 <= i < |l| ensures l[i] == r[i] {
      if i < |a| {
        assert (a + b)[i] == a[i];
      } else {
        assert (a + b)[i] == b[i - |a|];
      }
    }
  }

  /** Reading the sections' entries in order gives the entries of all the characters. */
  lemma {:induction false} SectionEntriesConcat(fd: FontData, chunks: seq<seq<char>>)
    ensures Concat(SectionEntries(fd, chunks)) == CMapEntries(fd, Concat(chunks))
    decreases |chunks|
  {
    if |chunks| > 0 {
      SectionEntriesConcat(fd, chunks[1..]);
      assert SectionEntries(fd, chunks) == [CMapEntries(fd, chunks[0])] + SectionEntries(fd, chunks[1..]);
      assert Concat(chunks) == chunks[0] + Concat(chunks[1..]);
      CMapEntriesAppend(fd, chunks[0], Concat(chunks[1..]));
    }
  }

  /** The code point an entry line maps to. */
  function EntryCode(line: string): nat
    requires |line| >= 12
  {
    HexDigitsValue(line[8..|line| - 2])
  }

  /** The glyph id an entry line maps from. */
  function EntryGlyph(line: string): nat
    requires |line| >= 12
  {
    HexDigitsValue(line[1..5])
  }

  /**
   * The CMap is the header, one section per chunk, and the footer. Each
   * section is headed by its entry count and closed by `endbfchar`. Read
   * in order, the sections' entries are the entries of the used
   * characters sorted by code point.
   */
  lemma CMapListsUsedChars(fd: FontData)
    ensures var chunks := CMapChunks(fd);
      && GenerateToUnicodeCMap(fd) == CMapHeader + Concat(BfCharSections(fd, chunks)) + CMapFooter
      && (forall i | 0 <= i < |chunks| ::
            BfCharSections(fd, chunks)[i]
              == NatToString(|SectionEntries(fd, chunks)[i]|) + " beginbfchar\n"
                 + Concat(SectionEntries(fd, chunks)[i]) + "endbfchar\n")
      && Concat(SectionEntries(fd, chunks)) == CMapEntries(fd, SortedChars(fd.usedChars))
  {
    var chunks := CMapChunks(fd);
    SectionEntriesConcat(fd, chunks);
    CMapIsSections(fd);
    SectionsHeaded(fd, chunks);
  }

  lemma CMapIsSections(fd: FontData)
    ensures GenerateToUnicodeCMap(fd) == CMapHeader + Concat(BfCharSections(fd, CMapChunks(fd))) + CMapFooter
  {
  }

  lemma SectionsHeaded(fd: FontData, chunks: seq<seq<char>>)
    ensures forall i | 0 <= i < |chunks| ::
      BfCharSections(fd, chunks)[i]
        == NatToString(|SectionEntries(fd, chunks)[i]|) + " beginbfchar\n"
           + Concat(SectionEntries(fd, chunks)[i]) + "endbfchar\n"
  {
  }

  /** Every used character has its entry, and there are no more entries than characters. */
  lemma EntriesCoverUsed(fd: FontData)
    ensures var lines := CMapEntries(fd, SortedChars(fd.usedChars));
      && |lines| == |fd.usedChars|
      && forall c | c in fd.usedChars :: CMapEntry(fd, c) in lines
  {
    var sorted := SortedChars(fd.usedChars);
    var lines := CMapEntries(fd, sorted);
    forall c | c in fd.usedChars ensures CMapEntry(fd, c) in lines {
      var i :| 0 <= i < |sorted| && sorted[i] == c;
      assert lines[i] == CMapEntry(fd, c);
    }
  }

  /** Entry `j` maps the glyph id of the `j`-th sorted character to its code point. */
  lemma EntriesDecode(fd: FontData)
    ensures var sorted := SortedChars(fd.usedChars);
            var lines := CMapEntries(fd, sorted);
      forall j | 0 <= j < |lines| ::
        |lines[j]| >= 12 && EntryCode(lines[j]) == sorted[j] as nat
        && EntryGlyph(lines[j]) == GlyphOr0(fd, sorted[j])
  {
    var sorted := SortedChars(fd.usedChars);
    var lines := CMapEntries(fd, sorted);
    forall j | 0 <= j < |lines|
      ensures |lines[j]| >= 12 && EntryCode(lines[j]) == sorted[j] as nat
    {
      assert lines[j] == CMapEntry(fd, sorted[j]);
    }
  }

  /** Entries run by strictly increasing code point. */
  lemma EntriesByCode(fd: FontData)
    ensures var lines := CMapEntries(fd, SortedChars(fd.usedChars));
      forall j, k | 0 <= j < k < |lines| :: |lines[j]| >= 12 && |lines[k]| >= 12 && EntryCode(lines[j]) < EntryCode(lines[k])
  {
    EntriesDecode(fd);
  }
}
