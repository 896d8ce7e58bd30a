/**
 * The PDF document's own bookkeeping, with the lopdf object graph reduced
 * to a sequence of pages: registered fonts and the cursor (family, weight,
 * style, size, colour), fallback chains, the per-page resource names, the
 * embedded images, the buffered content and the buffered text operations.
 *
 * Operations are pure functions from a document to a new document. Those
 * that fail before touching anything return `Result<Doc, PdfError>`; the two
 * that can fail half-way return a `Step` carrying the document as left.
 */
module Document {
  import opened Results
  import opened Strs
  import opened Bytes
  import opened PdfErrors
  import opened Fonts
  import opened Images
  import opened TextOps

  // ---------------------------------------------------------------------
  // State
  // ---------------------------------------------------------------------

  /** A MediaBox entry: a lopdf integer, a lopdf real, or anything else. */
  datatype BoxValue = IntVal(i: int) | RealVal(r: real) | OtherVal

  /**
   * A page: the MediaBox (or CropBox) found on it or inherited from its
   * parents, none when there is none, and its decompressed content.
   */
  datatype Page = Page(mediaBox: Option<seq<BoxValue>>, content: seq<byte>)

  /** A text run waiting to be encoded once the fonts are subset. */
  datatype BufferedTextOp = BufferedTextOp(
    text: string, fontName: string, resourceName: string,
    page: nat, x: real, y: real, fontSize: real, color: Color)

  /** An embedded image: the bytes it was made from and its XObject. Its index is its object id. */
  datatype EmbeddedImage = EmbeddedImage(source: seq<byte>, xobject: ImageXObject)

  /** A page's name for an embedded image. */
  datatype ImageRef = ImageRef(name: string, id: nat)

  /**
   * The fonts: legacy single fonts by name, and font families by name.
   * `order` lists the families in one fixed order that stands for the
   * iteration order of the source's `HashMap`, which is unspecified; it is
   * the order in which data names are searched here. When two families
   * hold data of the same name, which one the source finds is unspecified.
   */
  datatype FontTable = FontTable(fonts: map<string, FontData>, order: seq<string>, families: map<string, FontFamily>)

  datatype Doc = Doc(
    pages: seq<Page>,
    table: FontTable,
    currentFamily: Option<string>,
    weight: FontWeight,
    style: FontStyle,
    fontSize: real,
    color: Color,
    pageFonts: map<nat, map<string, string>>,
    nextFontResource: nat,
    images: seq<EmbeddedImage>,
    pageImages: map<nat, seq<ImageRef>>,
    nextImageResource: nat,
    fallbacks: map<string, seq<string>>,
    buffers: map<nat, seq<byte>>,
    textOps: seq<BufferedTextOp>)

  /** The outcome of an operation that may fail after changing the document. */
  datatype Step = Step(doc: Doc, err: Option<PdfError>)

  const Black: Color := Color(0.0, 0.0, 0.0)

  const NoFamily: string := "No font family set"

  /** A resource name: a prefix and a number. */
  function ResourceName(prefix: string, n: nat): string
  {
    prefix + NatToString(n)
  }

  /** Every name on every page is `prefix` and a number below `next`. */
  predicate NumberedBelow(m: map<nat, map<string, string>>, prefix: string, next: nat)
  {
    forall p, f | p in m && f in m[p] :: exists k: nat :: k < next && m[p][f] == ResourceName(prefix, k)
  }

  /** No two fonts of a page share a resource name. */
  predicate DistinctPerPage(m: map<nat, map<string, string>>)
  {
    forall p, f, g | p in m && f in m[p] && g in m[p] && f != g :: m[p][f] != m[p][g]
  }

  /** Every registered family is listed in the search order. */
  predicate Listed(t: FontTable)
  {
    forall k | k in t.families :: k in t.order
  }

  /**
   * What every operation keeps: families are listed and have a regular
   * variant, every legacy font also has a family, a current family is a
   * known one, content is buffered for existing pages only, and font
   * resource names are numbered below the counter and distinct per page.
   */
  predicate Valid(d: Doc)
  {
    && Listed(d.table)
    && (forall k | k in d.table.families :: d.table.families[k].regular.Some?)
    && (forall k | k in d.table.fonts :: k in d.table.families)
    && (d.currentFamily.Some? ==> Known(d, d.currentFamily.value))
    && (forall p | p in d.buffers :: 1 <= p <= |d.pages|)
    && NumberedBelow(d.pageFonts, "F", d.nextFontResource)
    && DistinctPerPage(d.pageFonts)
    && d.nextFontResource >= 1
  }

  /** A family or legacy font of that name is registered. */
  predicate Known(d: Doc, name: string)
  {
    name in d.table.families || name in d.table.fonts
  }

  /** A freshly opened document: no fonts, no family, 12 pt black, counters at 1. */
  function Open(pages: seq<Page>): (d: Doc)
    ensures Valid(d)
    ensures d.pages == pages && d.currentFamily.None? && d.fontSize == 12.0 && d.color == Black
    ensures d.weight == Regular && d.style == Normal
    ensures d.nextFontResource == 1 && d.nextImageResource == 1
  {
    Doc(pages, FontTable(map[], [], map[]), None, Regular, Normal, 12.0, Black,
        map[], 1, [], map[], 1, map[], map[], [])
  }

  /** Page numbers run from 1 to the page count. */
  function CheckPage(d: Doc, page: nat): (r: Option<PdfError>)
    ensures r.None? <==> 1 <= page <= |d.pages|
    ensures r.Some? ==> r.value == InvalidPage(page, |d.pages|)
  {
    if page == 0 || page > |d.pages| then Some(InvalidPage(page, |d.pages|)) else None
  }

  // ---------------------------------------------------------------------
  // Registering fonts and setting the cursor
  // ---------------------------------------------------------------------

  /**
   * The legacy API: a font registered both as a legacy font and as a
   * one-variant family, under a name used by neither.
   */
  function AddFont(d: Doc, name: string, data: seq<byte>, parse: seq<byte> -> Result<Face, string>): (r: Result<Doc, PdfError>)
    ensures Known(d, name) ==> r == Err(FontAlreadyExists(name))
    ensures !Known(d, name) ==> (r.Ok? <==> parse(data).Ok?)
    ensures !Known(d, name) && r.Err? ==> r.error == FontParseError(parse(data).error)
    ensures r.Ok? ==>
      var fd := FontData(name, data, {}, Some(parse(data).value));
      && r.value.table.fonts == d.table.fonts[name := fd]
      && r.value.table.families == d.table.families[name := FontFamily(Some(fd), None, None, None)]
      && r.value == d.(table := r.value.table)
      && FontDataNamed(r.value.table, name).Ok?
    ensures Valid(d) && r.Ok? ==> Valid(r.value)
  {
    if Known(d, name) then Err(FontAlreadyExists(name))
    else
      match FromTtf(name, data, parse)
      case Err(e) => Err(e)
      case Ok(fd) =>
        var t := d.table;
        var t' := FontTable(t.fonts[name := fd], t.order + [name],
                            t.families[name := FontFamily(Some(fd), None, None, None)]);
        LegacyFound(t', name);
        Ok(d.(table := t'))
  }

  /** Registers a family built from a builder, under a new family name. */
  function RegisterFontFamily(d: Doc, name: string, b: FontFamilyBuilder,
                              parse: seq<byte> -> Result<Face, string>): (r: Result<Doc, PdfError>)
    ensures name in d.table.families ==> r == Err(FontAlreadyExists(name))
    ensures name !in d.table.families ==> (r.Ok? <==> Build(b, name, parse).Ok?)
    ensures name !in d.table.families && r.Err? ==> r == Err(Build(b, name, parse).error)
    ensures r.Ok? ==>
      && r.value.table.families == d.table.families[name := Build(b, name, parse).value]
      && r.value.table.fonts == d.table.fonts
      && r.value == d.(table := r.value.table)
    ensures Valid(d) && r.Ok? ==> Valid(r.value)
  {
    if name in d.table.families then Err(FontAlreadyExists(name))
    else
      match Build(b, name, parse)
      case Err(e) => Err(e)
      case Ok(family) =>
        var t := d.table;
        Ok(d.(table := FontTable(t.fonts, t.order + [name], t.families[name := family])))
  }

  /** Selects a known family and a size; weight and style are kept. */
  function SetFont(d: Doc, family: string, size: real): (r: Result<Doc, PdfError>)
    ensures r.Err? <==> !Known(d, family)
    ensures r.Err? ==> r.error == FontNotFound(family)
    ensures r.Ok? ==> r.value == d.(currentFamily := Some(family), fontSize := size)
    ensures r.Ok? ==> r.value.weight == d.weight && r.value.style == d.style
    ensures Valid(d) && r.Ok? ==> Valid(r.value)
  {
    if !Known(d, family) then Err(FontNotFound(family))
    else Ok(d.(currentFamily := Some(family), fontSize := size))
  }

  function SetFontSize(d: Doc, size: real): (r: Result<Doc, PdfError>)
    ensures r.Err? <==> d.currentFamily.None?
    ensures r.Err? ==> r.error == FontNotFound(NoFamily)
    ensures r.Ok? ==> r.value == d.(fontSize := size)
  {
    if d.currentFamily.None? then Err(FontNotFound(NoFamily)) else Ok(d.(fontSize := size))
  }

  function SetFontWeight(d: Doc, weight: FontWeight): (r: Result<Doc, PdfError>)
    ensures r.Err? <==> d.currentFamily.None?
    ensures r.Err? ==> r.error == FontNotFound(NoFamily)
    ensures r.Ok? ==> r.value == d.(weight := weight)
  {
    if d.currentFamily.None? then Err(FontNotFound(NoFamily)) else Ok(d.(weight := weight))
  }

  function SetFontStyle(d: Doc, style: FontStyle): (r: Result<Doc, PdfError>)
    ensures r.Err? <==> d.currentFamily.None?
    ensures r.Err? ==> r.error == FontNotFound(NoFamily)
    ensures r.Ok? ==> r.value == d.(style := style)
  {
    if d.currentFamily.None? then Err(FontNotFound(NoFamily)) else Ok(d.(style := style))
  }

  /**
   * The cursor setters commute with each other and leave everything but
   * their own field alone: after setting a family, the size, weight and
   * style setters all succeed and each changes exactly its field.
   */
  lemma SettersIndependent(d: Doc, family: string, size: real, size2: real, w: FontWeight, s: FontStyle)
    requires Known(d, family)
    ensures var d1 := SetFont(d, family, size).value;
      && SetFontWeight(d1, w).Ok?
      && SetFontStyle(SetFontWeight(d1, w).value, s).Ok?
      && SetFontSize(SetFontStyle(SetFontWeight(d1, w).value, s).value, size2).Ok?
      && SetFontSize(SetFontStyle(SetFontWeight(d1, w).value, s).value, size2).value
         == d.(currentFamily := Some(family), weight := w, style := s, fontSize := size2)
  {
  }

  function SetTextColor(d: Doc, color: Color): (r: Doc)
    ensures r == d.(color := color)
  {
    d.(color := color)
  }

  /** The first name of `names[i..]` that is not known, if any. */
  function FirstUnknown(d: Doc, names: seq<string>, i: nat): (r: Option<string>)
    requires i <= |names|
    ensures r.None? <==> forall k | i <= k < |names| :: Known(d, names[k])
    ensures r.Some? ==> exists k | i <= k < |names| :: names[k] == r.value && !Known(d, names[k])
                          && forall j | i <= j < k :: Known(d, names[j])
    decreases |names| - i
  {
    if i == |names| then None
    else if !Known(d, names[i]) then Some(names[i])
    else FirstUnknown(d, names, i + 1)
  }

  /**
   * Replaces the fallback chain of a known family after checking that
   * every fallback is known; the first unknown one is reported.
   */
  function SetFontFallback(d: Doc, family: string, chain: seq<string>): (r: Result<Doc, PdfError>)
    ensures !Known(d, family) ==> r == Err(FontNotFound(family))
    ensures r.Ok? <==> Known(d, family) && forall k | 0 <= k < |chain| :: Known(d, chain[k])
    ensures Known(d, family) && r.Err? ==>
      exists k | 0 <= k < |chain| :: r.error == FontNotFound(chain[k]) && !Known(d, chain[k])
                                     && forall j | 0 <= j < k :: Known(d, chain[j])
    ensures r.Ok? ==> r.value == d.(fallbacks := d.fallbacks[family := chain])
  {
    if !Known(d, family) then Err(FontNotFound(family))
    else
      match FirstUnknown(d, chain, 0)
      case Some(name) => Err(FontNotFound(name))
      case None => Ok(d.(fallbacks := d.fallbacks[family := chain]))
  }

  /** The fallback chain of a font, empty when it has none. */
  function ChainOf(d: Doc, name: string): seq<string>
  {
    if name in d.fallbacks then d.fallbacks[name] else []
  }

  /** Legacy API: appends a legacy font to the chain of a legacy font. */
  function AddFontFallback(d: Doc, primary: string, fallback: string): (r: Result<Doc, PdfError>)
    ensures primary !in d.table.fonts ==> r == Err(FontNotFound(primary))
    ensures primary in d.table.fonts && fallback !in d.table.fonts ==> r == Err(FontNotFound(fallback))
    ensures r.Ok? <==> primary in d.table.fonts && fallback in d.table.fonts
    ensures r.Ok? ==> r.value == d.(fallbacks := d.fallbacks[primary := ChainOf(d, primary) + [fallback]])
  {
    if primary !in d.table.fonts then Err(FontNotFound(primary))
    else if fallback !in d.table.fonts then Err(FontNotFound(fallback))
    else Ok(d.(fallbacks := d.fallbacks[primary := ChainOf(d, primary) + [fallback]]))
  }

  /** Appends `chain[i..]` one by one, stopping at the first failure. */
  function AddFallbacks(d: Doc, primary: string, chain: seq<string>, i: nat): (r: Step)
    requires i <= |chain|
    ensures r.err.None? <==> i == |chain| || (primary in d.table.fonts &&
                                              forall k | i <= k < |chain| :: chain[k] in d.table.fonts)
    ensures r.err.None? && i < |chain| ==> r.doc == d.(fallbacks := d.fallbacks[primary := ChainOf(d, primary) + chain[i..]])
    ensures i == |chain| ==> r.doc == d
    ensures r.doc.table == d.table && r.doc.currentFamily == d.currentFamily && r.doc.pages == d.pages
    ensures r.doc == d.(fallbacks := r.doc.fallbacks)
    ensures r.doc.fallbacks - {primary} == d.fallbacks - {primary}
    ensures i < |chain| && primary !in d.table.fonts ==> r == Step(d, Some(FontNotFound(primary)))
    decreases |chain| - i
  {
    if i == |chain| then Step(d, None)
    else
      match AddFontFallback(d, primary, chain[i])
      case Err(e) => Step(d, Some(e))
      case Ok(d1) =>
        var r := AddFallbacks(d1, primary, chain, i + 1);
        assert ChainOf(d1, primary) == ChainOf(d, primary) + [chain[i]];
        assert ChainOf(d, primary) + [chain[i]] + chain[i + 1..] == ChainOf(d, primary) + chain[i..];
        assert i + 1 == |chain| ==> chain[i..] == [chain[i]];
        assert d1.fallbacks - {primary} == d.fallbacks - {primary};
        r
  }

  /**
   * Appending `chain[i..]` stopped at `chain[k]`: the fallbacks from `i` up
   * to `k` are legacy fonts, `chain[k]` is not and is reported, and the
   * primary's chain gained exactly `chain[i..k]`.
   */
  predicate StoppedAt(d: Doc, primary: string, chain: seq<string>, i: nat, k: nat, r: Step)
    requires i <= k < |chain|
  {
    && chain[k] !in d.table.fonts && (forall j | i <= j < k :: chain[j] in d.table.fonts)
    && r.err == Some(FontNotFound(chain[k]))
    && (k == i ==> r.doc == d)
    && (k > i ==> r.doc.fallbacks == d.fallbacks[primary := ChainOf(d, primary) + chain[i..k]])
  }

  /**
   * When the primary is a legacy font and a fallback is rejected, the first
   * fallback that is not a legacy font is reported, and the chain holds the
   * fallbacks before it.
   */
  lemma {:induction false} AddFallbacksStops(d: Doc, primary: string, chain: seq<string>, i: nat)
    requires i <= |chain| && primary in d.table.fonts
    requires AddFallbacks(d, primary, chain, i).err.Some?
    ensures exists k | i <= k < |chain| :: StoppedAt(d, primary, chain, i, k, AddFallbacks(d, primary, chain, i))
    decreases |chain| - i
  {
    var r := AddFallbacks(d, primary, chain, i);
    if chain[i] !in d.table.fonts {
      assert r == Step(d, Some(FontNotFound(chain[i])));
      assert StoppedAt(d, primary, chain, i, i, r);
    } else {
      var d1 := d.(fallbacks := d.fallbacks[primary := ChainOf(d, primary) + [chain[i]]]);
      assert AddFontFallback(d, primary, chain[i]) == Ok(d1);
      assert r == AddFallbacks(d1, primary, chain, i + 1);
      AddFallbacksStops(d1, primary, chain, i + 1);
      var k :| i + 1 <= k < |chain| && StoppedAt(d1, primary, chain, i + 1, k, r);
      StoppedOneLater(d, primary, chain, i, k, r);
    }
  }

  /** Stopping at `chain[k]` after accepting `chain[i]` is stopping at `chain[k]` from `i`. */
  lemma StoppedOneLater(d: Doc, primary: string, chain: seq<string>, i: nat, k: nat, r: Step)
    requires i < k < |chain| && chain[i] in d.table.fonts
    requires StoppedAt(d.(fallbacks := d.fallbacks[primary := ChainOf(d, primary) + [chain[i]]]), primary, chain, i + 1, k, r)
    ensures StoppedAt(d, primary, chain, i, k, r)
  {
    var d1 := d.(fallbacks := d.fallbacks[primary := ChainOf(d, primary) + [chain[i]]]);
    assert ChainOf(d1, primary) == ChainOf(d, primary) + [chain[i]];
    assert chain[i..k] == [chain[i]] + chain[i + 1..k];
    assert ChainOf(d, primary) + chain[i..k] == ChainOf(d1, primary) + chain[i + 1..k];
    assert k == i + 1 ==> chain[i..k] == [chain[i]];
  }

  /**
   * Selects a font and replaces its chain by appending each fallback in
   * turn. The font is selected and its old chain dropped even when a
   * fallback is then rejected, and the fallbacks accepted before it stay.
   * Appending goes through the legacy-font check, so a family that is not
   * also a legacy font fails at its first fallback, naming itself.
   */
  function SetFontWithFallback(d: Doc, name: string, size: real, chain: seq<string>): (r: Step)
    ensures !Known(d, name) ==> r == Step(d, Some(FontNotFound(name)))
    ensures Known(d, name) ==>
      && r.doc.currentFamily == Some(name) && r.doc.fontSize == size
      && (r.err.None? <==> chain == [] || (name in d.table.fonts &&
                                           forall k | 0 <= k < |chain| :: chain[k] in d.table.fonts))
    ensures Known(d, name) && r.err.None? ==>
      && (chain == [] ==> name !in r.doc.fallbacks)
      && (chain != [] ==> name in r.doc.fallbacks && r.doc.fallbacks[name] == chain)
    ensures Known(d, name) ==>
      && r.doc == d.(currentFamily := Some(name), fontSize := size, fallbacks := r.doc.fallbacks)
      && r.doc.fallbacks - {name} == d.fallbacks - {name}
    ensures Known(d, name) && chain != [] && name !in d.table.fonts ==>
      r.err == Some(FontNotFound(name)) && name !in r.doc.fallbacks
    ensures Known(d, name) && name in d.table.fonts && r.err.Some? ==>
      exists k | 0 <= k < |chain| ::
        && chain[k] !in d.table.fonts && (forall j | 0 <= j < k :: chain[j] in d.table.fonts)
        && r.err == Some(FontNotFound(chain[k]))
        && (k == 0 ==> name !in r.doc.fallbacks)
        && (k > 0 ==> name in r.doc.fallbacks && r.doc.fallbacks[name] == chain[..k])
    ensures Valid(d) ==> Valid(r.doc)
  {
    match SetFont(d, name, size)
    case Err(e) => Step(d, Some(e))
    case Ok(d1) =>
      var d2 := d1.(fallbacks := d1.fallbacks - {name});
      assert ChainOf(d2, name) == [];
      assert [] + chain[0..] == chain;
      assert d2.fallbacks - {name} == d.fallbacks - {name};
      var r := AddFallbacks(d2, name, chain, 0);
      if name in d.table.fonts && r.err.Some? then
        FallbackChainStops(d2, name, chain);
        r
      else r
  }

  /** From an empty chain, a rejected fallback leaves exactly the fallbacks before it. */
  lemma FallbackChainStops(d: Doc, primary: string, chain: seq<string>)
    requires primary in d.table.fonts && primary !in d.fallbacks
    requires AddFallbacks(d, primary, chain, 0).err.Some?
    ensures var r := AddFallbacks(d, primary, chain, 0);
      exists k | 0 <= k < |chain| ::
        && chain[k] !in d.table.fonts && (forall j | 0 <= j < k :: chain[j] in d.table.fonts)
        && r.err == Some(FontNotFound(chain[k]))
        && (k == 0 ==> primary !in r.doc.fallbacks)
        && (k > 0 ==> primary in r.doc.fallbacks && r.doc.fallbacks[primary] == chain[..k])
  {
    AddFallbacksStops(d, primary, chain, 0);
    var r := AddFallbacks(d, primary, chain, 0);
    var k :| 0 <= k < |chain| && StoppedAt(d, primary, chain, 0, k, r);
    assert ChainOf(d, primary) + chain[0..k] == chain[..k];
  }

  // ---------------------------------------------------------------------
  // Finding font data by name
  // ---------------------------------------------------------------------

  /** Slot `slot` of `f` holds data named `name`. */
  predicate NamedIn(f: FontFamily, slot: Slot, name: string)
  {
    Variant(f, slot).Some? && Variant(f, slot).value.name == name
  }

  /** The first slot of `BuildOrder[i..]` holding data named `name`. */
  function SlotNamed(f: FontFamily, name: string, i: nat): (r: Option<Slot>)
    requires i <= 4
    ensures r.Some? ==> NamedIn(f, r.value, name)
    ensures r.None? <==> forall k | i <= k < 4 :: !NamedIn(f, BuildOrder[k], name)
    decreases 4 - i
  {
    if i == 4 then None
    else if NamedIn(f, BuildOrder[i], name) then Some(BuildOrder[i])
    else SlotNamed(f, name, i + 1)
  }

  /** Family number `k` of the search order is registered and holds data named `name`. */
  predicate FamilyHas(t: FontTable, k: nat, name: string)
  {
    k < |t.order| && t.order[k] in t.families && SlotNamed(t.families[t.order[k]], name, 0).Some?
  }

  /** The first family in `order[i..]` holding data named `name`. */
  function FamilyWith(t: FontTable, name: string, i: nat): (r: Option<nat>)
    requires i <= |t.order|
    ensures r.Some? ==> i <= r.value && FamilyHas(t, r.value, name)
    ensures r.None? <==> forall k | i <= k < |t.order| :: !FamilyHas(t, k, name)
    decreases |t.order| - i
  {
    if i == |t.order| then None
    else if FamilyHas(t, i, name) then Some(i)
    else FamilyWith(t, name, i + 1)
  }

  /**
   * The data named `name`: searched through the families' variants first,
   * then among the legacy fonts by key.
   */
  function FontDataNamed(t: FontTable, name: string): (r: Result<FontData, PdfError>)
    ensures r.Err? <==> (forall k | 0 <= k < |t.order| :: !FamilyHas(t, k, name)) && name !in t.fonts
    ensures r.Err? ==> r.error == FontNotFound(name)
    ensures r.Ok? && FamilyWith(t, name, 0).Some? ==> r.value.name == name
    ensures r.Ok? && FamilyWith(t, name, 0).None? ==> r.value == t.fonts[name]
  {
    match FamilyWith(t, name, 0)
    case Some(k) =>
      var f := t.families[t.order[k]];
      Ok(Variant(f, SlotNamed(f, name, 0).value).value)
    case None =>
      if name in t.fonts then Ok(t.fonts[name]) else Err(FontNotFound(name))
  }

  /** A legacy font is always found under its key. */
  lemma LegacyFound(t: FontTable, name: string)
    requires name in t.fonts
    ensures FontDataNamed(t, name).Ok?
  {
  }

  /** Data of any registered family is found under its own name. */
  lemma VariantFound(t: FontTable, family: string, slot: Slot)
    requires Listed(t) && family in t.families && Variant(t.families[family], slot).Some?
    ensures var fd := Variant(t.families[family], slot).value;
      FontDataNamed(t, fd.name).Ok? && FontDataNamed(t, fd.name).value.name == fd.name
  {
    var f := t.families[family];
    var name := Variant(f, slot).value.name;
    var k :| 0 <= k < |t.order| && t.order[k] == family;
    var i := match slot case RegularSlot => 0 case BoldSlot => 1 case ItalicSlot => 2 case BoldItalicSlot => 3;
    assert NamedIn(f, BuildOrder[i], name);
    assert FamilyHas(t, k, name);
  }

  // ---------------------------------------------------------------------
  // Recording used characters (`get_font_data_mut` + `add_chars`)
  // ---------------------------------------------------------------------

  /** `f` with the data in `slot` replaced. */
  function WithVariant(f: FontFamily, slot: Slot, fd: FontData): (r: FontFamily)
    ensures Variant(r, slot) == Some(fd)
    ensures forall o: Slot | o != slot :: Variant(r, o) == Variant(f, o)
  {
    match slot
    case RegularSlot => f.(regular := Some(fd))
    case BoldSlot => f.(bold := Some(fd))
    case ItalicSlot => f.(italic := Some(fd))
    case BoldItalicSlot => f.(boldItalic := Some(fd))
  }

  /**
   * Records the characters of `text` in the data `FontDataNamed` finds
   * under `name`: the same search, the same family and slot.
   */
  function AddCharsTo(t: FontTable, name: string, text: string): (r: Result<FontTable, PdfError>)
    ensures r.Err? <==> FontDataNamed(t, name).Err?
    ensures r.Err? ==> r.error == FontNotFound(name)
    ensures r.Ok? ==> Resembles(t, r.value)
  {
    match FamilyWith(t, name, 0)
    case Some(k) =>
      var key := t.order[k];
      var f := t.families[key];
      var slot := SlotNamed(f, name, 0).value;
      var f' := WithVariant(f, slot, AddChars(Variant(f, slot).value, text));
      assert SameNames(f, f') by {
        forall o: Slot ensures SameSlot(f, f', o) {
          if o == slot {
          } else {
            assert Variant(f', o) == Variant(f, o);
          }
        }
      }
      Ok(t.(families := t.families[key := f']))
    case None =>
      if name in t.fonts then Ok(t.(fonts := t.fonts[name := AddChars(t.fonts[name], text)]))
      else Err(FontNotFound(name))
  }

  /** Same name and same face: everything but the used characters agrees. */
  predicate SameData(a: FontData, b: FontData)
  {
    a.name == b.name && a.face == b.face
  }

  predicate SameSlot(f: FontFamily, g: FontFamily, s: Slot)
  {
    Variant(f, s).Some? == Variant(g, s).Some? &&
    (Variant(f, s).Some? ==> SameData(Variant(f, s).value, Variant(g, s).value))
  }

  predicate SameNames(f: FontFamily, g: FontFamily)
  {
    forall s: Slot :: SameSlot(f, g, s)
  }

  /** Two tables that differ at most in used-character sets. */
  predicate Resembles(t: FontTable, u: FontTable)
  {
    && t.order == u.order
    && t.families.Keys == u.families.Keys
    && t.fonts.Keys == u.fonts.Keys
    && (forall k | k in t.families :: SameNames(t.families[k], u.families[k]))
    && (forall k | k in t.fonts :: SameData(t.fonts[k], u.fonts[k]))
  }

  lemma {:induction false} SlotNamedResembles(f: FontFamily, g: FontFamily, name: string, i: nat)
    requires i <= 4 && SameNames(f, g)
    ensures SlotNamed(f, name, i) == SlotNamed(g, name, i)
    decreases 4 - i
  {
    if i < 4 {
      assert SameSlot(f, g, BuildOrder[i]);
      SlotNamedResembles(f, g, name, i + 1);
    }
  }

  lemma {:induction false} FamilyWithResembles(t: FontTable, u: FontTable, name: string, i: nat)
    requires i <= |t.order| && Resembles(t, u)
    ensures FamilyWith(t, name, i) == FamilyWith(u, name, i)
    decreases |t.order| - i
  {
    if i < |t.order| {
      if t.order[i] in t.families {
        SlotNamedResembles(t.families[t.order[i]], u.families[t.order[i]], name, 0);
      }
      FamilyWithResembles(t, u, name, i + 1);
    }
  }

  /** Lookups in resembling tables succeed together and find resembling data. */
  lemma FontDataResembles(t: FontTable, u: FontTable, name: string)
    requires Resembles(t, u)
    ensures FontDataNamed(t, name).Ok? == FontDataNamed(u, name).Ok?
    ensures FontDataNamed(t, name).Ok? ==> SameData(FontDataNamed(t, name).value, FontDataNamed(u, name).value)
  {
    FamilyWithResembles(t, u, name, 0);
    match FamilyWith(t, name, 0)
    case Some(k) =>
      var key := t.order[k];
      SlotNamedResembles(t.families[key], u.families[key], name, 0);
      assert SameSlot(t.families[key], u.families[key], SlotNamed(t.families[key], name, 0).value);
    case None =>
  }

  /**
   * After recording characters under `name`, the data found under `name`
   * is the old data with those characters added, and every other name
   * finds exactly what it found before.
   */
  lemma AddCharsLookup(t: FontTable, name: string, text: string, other: string)
    requires FontDataNamed(t, name).Ok?
    ensures var u := AddCharsTo(t, name, text).value;
      && FontDataNamed(u, name) == Ok(AddChars(FontDataNamed(t, name).value, text))
      && (other != name ==> FontDataNamed(u, other) == FontDataNamed(t, other))
  {
    var u := AddCharsTo(t, name, text).value;
    FamilyWithResembles(t, u, name, 0);
    FamilyWithResembles(t, u, other, 0);
    match FamilyWith(t, name, 0)
    case Some(k) =>
      var key := t.order[k];
      var f := t.families[key];
      var g := u.families[key];
      SlotNamedResembles(f, g, name, 0);
      if other != name {
        match FamilyWith(t, other, 0)
        case Some(k2) =>
          var key2 := t.order[k2];
          SlotNamedResembles(t.families[key2], u.families[key2], other, 0);
          if key2 == key {
            var s2 := SlotNamed(f, other, 0).value;
            assert s2 != SlotNamed(f, name, 0).value;
          }
        case None =>
      }
    case None =>
  }

  /** Widths depend on the face only. */
  lemma {:induction false} TextWidthSameFace(a: FontData, b: FontData, text: string)
    requires a.face == b.face
    ensures TextWidth(a, text) == TextWidth(b, text)
    decreases |text|
  {
    if |text| > 0 {
      assert AdvanceOr0(a, text[0]) == AdvanceOr0(b, text[0]);
      TextWidthSameFace(a, b, text[1..]);
    }
  }

  // ---------------------------------------------------------------------
  // Font runs (`segment_text_by_font`)
  // ---------------------------------------------------------------------

  /** A stretch of text and the font data name it is drawn with. */
  datatype TextSegment = TextSegment(text: string, fontName: string)

  function Texts(r: seq<TextSegment>): (ts: seq<string>)
    ensures |ts| == |r| && forall i | 0 <= i < |r| :: ts[i] == r[i].text
  {
    if |r| == 0 then [] else [r[0].text] + Texts(r[1..])
  }

  /** Every character of the run has the run's font. */
  predicate Uniform(font: char -> string, s: TextSegment)
  {
    forall j | 0 <= j < |s.text| :: font(s.text[j]) == s.fontName
  }

  /**
   * `r` cuts `text` into non-empty runs, every character of a run has the
   * run's font, and neighbouring runs have different fonts.
   */
  predicate RunSplit(text: string, font: char -> string, r: seq<TextSegment>)
  {
    && Concat(Texts(r)) == text
    && (forall i | 0 <= i < |r| :: |r[i].text| > 0 && Uniform(font, r[i]))
    && (forall i | 0 <= i < |r| - 1 :: r[i].fontName != r[i + 1].fontName)
  }

  /** The end of the stretch from `i` on whose characters have font `n`. */
  function RunEnd(text: string, font: char -> string, n: string, i: nat): (j: nat)
    requires i <= |text|
    ensures i <= j <= |text|
    ensures forall k | i <= k < j :: font(text[k]) == n
    ensures j < |text| ==> font(text[j]) != n
    decreases |text| - i
  {
    if i == |text| || font(text[i]) != n then i else RunEnd(text, font, n, i + 1)
  }

  /**
   * Groups consecutive characters with the same font into one run, from
   * the left: the first run extends while the font stays the same.
   */
  function Runs(text: string, font: char -> string): (r: seq<TextSegment>)
    ensures RunSplit(text, font, r)
    ensures text == [] <==> r == []
    ensures r != [] ==> r[0].fontName == font(text[0])
    decreases |text|
  {
    if text == [] then []
    else
      var n := font(text[0]);
      var j := RunEnd(text, font, n, 1);
      var s := TextSegment(text[..j], n);
      assert Uniform(font, s) by {
        forall k | 0 <= k < j ensures font(s.text[k]) == n {
          assert s.text[k] == text[k];
        }
      }
      var rest := Runs(text[j..], font);
      RunsCons(text, font, s, rest, j);
      [s] + rest
  }

  lemma TextsCons(s: TextSegment, rest: seq<TextSegment>)
    ensures Concat(Texts([s] + rest)) == s.text + Concat(Texts(rest))
  {
    assert Texts([s] + rest)[1..] == Texts(rest);
  }

  /** A uniform first run followed by a split of the rest, in another font, splits the whole. */
  lemma RunsCons(text: string, font: char -> string, s: TextSegment, rest: seq<TextSegment>, j: nat)
    requires 0 < j <= |text| && s.text == text[..j] && Uniform(font, s)
    requires RunSplit(text[j..], font, rest)
    requires rest != [] ==> rest[0].fontName != s.fontName
    ensures RunSplit(text, font, [s] + rest)
  {
    var r := [s] + rest;
    TextsCons(s, rest);
    assert text == text[..j] + text[j..];
    forall i | 0 <= i < |r| ensures |r[i].text| > 0 && Uniform(font, r[i]) {
      if i > 0 {
        assert r[i] == rest[i - 1];
      }
    }
    forall i | 0 <= i < |r| - 1 ensures r[i].fontName != r[i + 1].fontName {
      if i > 0 {
        assert r[i] == rest[i - 1] && r[i + 1] == rest[i];
      }
    }
  }

  /** The first run of a split is a prefix of the text, and the rest split the remainder. */
  lemma RunSplitTail(text: string, font: char -> string, r: seq<TextSegment>)
    requires RunSplit(text, font, r) && r != []
    ensures |r[0].text| <= |text| && text[..|r[0].text|] == r[0].text
    ensures RunSplit(text[|r[0].text|..], font, r[1..])
    ensures r[1..] != [] ==> text[|r[0].text|] == r[1].text[0]
  {
    var rest := r[1..];
    assert r == [r[0]] + rest;
    TextsCons(r[0], rest);
    var j := |r[0].text|;
    assert text[j..] == Concat(Texts(rest));
    forall i | 0 <= i < |rest| ensures |rest[i].text| > 0 && Uniform(font, rest[i]) {
      assert rest[i] == r[i + 1];
    }
    forall i | 0 <= i < |rest| - 1 ensures rest[i].fontName != rest[i + 1].fontName {
      assert rest[i] == r[i + 1] && rest[i + 1] == r[i + 2];
    }
    if rest != [] {
      TextsCons(rest[0], rest[1..]);
      assert rest == [rest[0]] + rest[1..];
    }
  }

  lemma {:induction false} RunEndIs(text: string, font: char -> string, n: string, i: nat, j: nat)
    requires i <= j <= |text|
    requires forall k | i <= k < j :: font(text[k]) == n
    requires j < |text| ==> font(text[j]) != n
    ensures RunEnd(text, font, n, i) == j
    decreases j - i
  {
    if i < j {
      RunEndIs(text, font, n, i + 1, j);
    }
  }

  /**
   * The runs are determined by the text and the font of each character:
   * any split with the properties of `RunSplit` is the one `Runs` builds.
   */
  lemma {:induction false} RunsUnique(text: string, font: char -> string, r: seq<TextSegment>)
    requires RunSplit(text, font, r)
    ensures r == Runs(text, font)
    decreases |text|
  {
    if r == [] {
      assert text == [];
    } else {
      RunSplitTail(text, font, r);
      var j := |r[0].text|;
      var n := r[0].fontName;
      assert Uniform(font, r[0]);
      assert text[0] == r[0].text[0];
      forall k | 1 <= k < j ensures font(text[k]) == n {
        assert text[k] == r[0].text[k];
      }
      if j < |text| {
        assert r[1..] != [];
        assert Uniform(font, r[1]) && font(r[1].text[0]) == r[1].fontName;
      }
      RunEndIs(text, font, n, 1, j);
      RunsUnique(text[j..], font, r[1..]);
      assert r == [r[0]] + r[1..];
    }
  }

  /** Text whose characters all have one font is a single run. */
  lemma SingleRun(text: string, font: char -> string, name: string)
    requires text != [] && forall j | 0 <= j < |text| :: font(text[j]) == name
    ensures Runs(text, font) == [TextSegment(text, name)]
  {
    var r := [TextSegment(text, name)];
    assert Texts(r) == [text];
    assert Concat(Texts(r)) == text + Concat(Texts(r)[1..]);
    RunsUnique(text, font, r);
  }

  /**
   * The data a fallback offers for the current weight and style: a family's
   * variant by `get_variant` under the variant's data name, or a legacy
   * font under its key.
   */
  datatype Candidate = Candidate(name: string, data: FontData)

  function FallbackCandidate(d: Doc, fallback: string): Option<Candidate>
  {
    if fallback in d.table.families then
      match GetVariant(d.table.families[fallback], d.weight, d.style)
      case Some(v) => Some(Candidate(v.name, v))
      case None => None
    else if fallback in d.table.fonts then Some(Candidate(fallback, d.table.fonts[fallback]))
    else None
  }

  predicate Covers(d: Doc, fallback: string, c: char)
  {
    FallbackCandidate(d, fallback).Some? && HasGlyph(FallbackCandidate(d, fallback).value.data, c)
  }

  /** The name of the first fallback in `chain[i..]` that has a glyph for `c`. */
  function FirstCovering(d: Doc, chain: seq<string>, c: char, i: nat): (r: Option<string>)
    requires i <= |chain|
    ensures r.None? <==> forall k | i <= k < |chain| :: !Covers(d, chain[k], c)
    ensures r.Some? ==> exists k | i <= k < |chain| ::
      && Covers(d, chain[k], c) && r.value == FallbackCandidate(d, chain[k]).value.name
      && forall j | i <= j < k :: !Covers(d, chain[j], c)
  {
    match CoveringIndex(d, chain, c, i)
    case None => None
    case Some(k) => Some(FallbackCandidate(d, chain[k]).value.name)
  }

  /** The position of the first fallback in `chain[i..]` that has a glyph for `c`. */
  function CoveringIndex(d: Doc, chain: seq<string>, c: char, i: nat): (r: Option<nat>)
    requires i <= |chain|
    ensures r.None? <==> forall k | i <= k < |chain| :: !Covers(d, chain[k], c)
    ensures r.Some? ==> i <= r.value < |chain| && Covers(d, chain[r.value], c)
    ensures r.Some? ==> forall j | i <= j < r.value :: !Covers(d, chain[j], c)
    decreases |chain| - i
  {
    if i == |chain| then None
    else if Covers(d, chain[i], c) then Some(i)
    else CoveringIndex(d, chain, c, i + 1)
  }

  /**
   * The font for one character: the primary variant when it has the glyph
   * (or cannot be found), else the first fallback that has it, else the
   * primary variant again.
   */
  function FontForChar(d: Doc, family: string, variant: string, c: char): (r: string)
    ensures FontDataNamed(d.table, variant).Err? ==> r == variant
    ensures FontDataNamed(d.table, variant).Ok? && HasGlyph(FontDataNamed(d.table, variant).value, c) ==> r == variant
    ensures r != variant ==> exists k | 0 <= k < |ChainOf(d, family)| ::
      Covers(d, ChainOf(d, family)[k], c) && r == FallbackCandidate(d, ChainOf(d, family)[k]).value.name
  {
    match FontDataNamed(d.table, variant)
    case Err(_) => variant
    case Ok(fd) =>
      if HasGlyph(fd, c) then variant
      else
        match FirstCovering(d, ChainOf(d, family), c, 0)
        case Some(n) => n
        case None => variant
  }

  function CharFont(d: Doc, family: string, variant: string): char -> string
  {
    c => FontForChar(d, family, variant, c)
  }

  /** The runs of `text` for the current family and its resolved variant name. */
  function SegmentTextByFont(d: Doc, text: string, family: string, variant: string): (r: seq<TextSegment>)
    ensures RunSplit(text, CharFont(d, family, variant), r)
    ensures text == [] <==> r == []
  {
    Runs(text, CharFont(d, family, variant))
  }

  /** When the primary variant has every glyph, the whole text is one run. */
  lemma PrimaryCoversAll(d: Doc, text: string, family: string, variant: string)
    requires text != [] && FontDataNamed(d.table, variant).Ok?
    requires forall j | 0 <= j < |text| :: HasGlyph(FontDataNamed(d.table, variant).value, text[j])
    ensures SegmentTextByFont(d, text, family, variant) == [TextSegment(text, variant)]
  {
    SingleRun(text, CharFont(d, family, variant), variant);
  }

  /**
   * In a valid document every run's font can be looked up when the
   * primary variant can.
   */
  lemma RunFontsResolve(d: Doc, text: string, family: string, variant: string)
    requires Valid(d) && FontDataNamed(d.table, variant).Ok?
    ensures forall i | 0 <= i < |SegmentTextByFont(d, text, family, variant)| ::
      FontDataNamed(d.table, SegmentTextByFont(d, text, family, variant)[i].fontName).Ok?
  {
    var r := SegmentTextByFont(d, text, family, variant);
    forall i | 0 <= i < |r| ensures FontDataNamed(d.table, r[i].fontName).Ok? {
      var c := r[i].text[0];
      assert CharFont(d, family, variant)(c) == r[i].fontName;
      CharFontResolves(d, family, variant, c);
    }
  }

  /** The font chosen for one character can be looked up. */
  lemma CharFontResolves(d: Doc, family: string, variant: string, c: char)
    requires Valid(d) && FontDataNamed(d.table, variant).Ok?
    ensures FontDataNamed(d.table, FontForChar(d, family, variant, c)).Ok?
  {
    var n := FontForChar(d, family, variant, c);
    if n != variant {
      var chain := ChainOf(d, family);
      var k :| 0 <= k < |chain| && Covers(d, chain[k], c) && n == FallbackCandidate(d, chain[k]).value.name;
      CandidateResolves(d, chain[k]);
    }
  }

  /** A fallback's candidate font can be looked up by its name. */
  lemma CandidateResolves(d: Doc, fb: string)
    requires Valid(d) && FallbackCandidate(d, fb).Some?
    ensures FontDataNamed(d.table, FallbackCandidate(d, fb).value.name).Ok?
  {
    if fb in d.table.families {
      var f := d.table.families[fb];
      VariantFallback(f, d.weight, d.style);
      var slot := FirstPresent(f, Preference(d.weight, d.style), 0).value;
      VariantFound(d.table, fb, slot);
    } else {
      LegacyFound(d.table, fb);
    }
  }

  // ---------------------------------------------------------------------
  // Per-page resource names
  // ---------------------------------------------------------------------

  lemma ResourceNameInjective(prefix: string, a: nat, b: nat)
    requires ResourceName(prefix, a) == ResourceName(prefix, b)
    ensures a == b
  {
    assert ResourceName(prefix, a)[|prefix|..] == NatToString(a);
    assert ResourceName(prefix, b)[|prefix|..] == NatToString(b);
    DigitsValueNatToString(a);
    DigitsValueNatToString(b);
  }

  /** The fonts of a page and their resource names; none yet when absent. */
  function PageFonts(d: Doc, page: nat): map<string, string>
  {
    if page in d.pageFonts then d.pageFonts[page] else map[]
  }

  /** A document and a name handed out with it. */
  datatype Named = Named(doc: Doc, name: string)

  /**
   * The resource name of a font on a page: the one it already has there,
   * or `F{n}` from the document-wide counter, which then advances.
   */
  function GetOrCreateFontRef(d: Doc, fontName: string, page: nat): (r: Named)
    ensures fontName in PageFonts(d, page) ==> r == Named(d, PageFonts(d, page)[fontName])
    ensures fontName !in PageFonts(d, page) ==>
      && r.name == ResourceName("F", d.nextFontResource)
      && r.doc == d.(pageFonts := d.pageFonts[page := PageFonts(d, page)[fontName := r.name]],
                     nextFontResource := d.nextFontResource + 1)
    ensures page in r.doc.pageFonts && fontName in r.doc.pageFonts[page] && r.doc.pageFonts[page][fontName] == r.name
    ensures Valid(d) && fontName !in PageFonts(d, page) ==>
      forall p, f | p in d.pageFonts && f in d.pageFonts[p] :: d.pageFonts[p][f] != r.name
    ensures Valid(d) ==> Valid(r.doc)
  {
    var fonts := PageFonts(d, page);
    if fontName in fonts then Named(d, fonts[fontName])
    else
      var name := ResourceName("F", d.nextFontResource);
      var d' := d.(pageFonts := d.pageFonts[page := fonts[fontName := name]],
                   nextFontResource := d.nextFontResource + 1);
      FontRefAdded(d, d', page, fontName, name);
      Named(d', name)
  }

  /** A new name is unused everywhere, and adding it keeps the document valid. */
  lemma FontRefAdded(d: Doc, d': Doc, page: nat, fontName: string, name: string)
    requires name == ResourceName("F", d.nextFontResource)
    requires fontName !in PageFonts(d, page)
    requires d' == d.(pageFonts := d.pageFonts[page := PageFonts(d, page)[fontName := name]],
                      nextFontResource := d.nextFontResource + 1)
    ensures Valid(d) ==> forall p, f | p in d.pageFonts && f in d.pageFonts[p] :: d.pageFonts[p][f] != name
    ensures Valid(d) ==> Valid(d')
  {
    if Valid(d) {
      FreshFontRef(d, name);
      FontRefsStayNumbered(d, d', page, fontName, name);
    }
  }

  lemma FreshFontRef(d: Doc, name: string)
    requires Valid(d) && name == ResourceName("F", d.nextFontResource)
    ensures forall p, f | p in d.pageFonts && f in d.pageFonts[p] :: d.pageFonts[p][f] != name
  {
    forall p, f | p in d.pageFonts && f in d.pageFonts[p] ensures d.pageFonts[p][f] != name {
      var k: nat :| k < d.nextFontResource && d.pageFonts[p][f] == ResourceName("F", k);
      if d.pageFonts[p][f] == name {
        ResourceNameInjective("F", k, d.nextFontResource);
      }
    }
  }

  lemma FontRefsStayNumbered(d: Doc, d': Doc, page: nat, fontName: string, name: string)
    requires Valid(d) && name == ResourceName("F", d.nextFontResource)
    requires fontName !in PageFonts(d, page)
    requires forall p, f | p in d.pageFonts && f in d.pageFonts[p] :: d.pageFonts[p][f] != name
    requires d' == d.(pageFonts := d.pageFonts[page := PageFonts(d, page)[fontName := name]],
                      nextFontResource := d.nextFontResource + 1)
    ensures Valid(d')
  {
    var m := d'.pageFonts;
    forall p, f | p in m && f in m[p]
      ensures exists k: nat :: k < d'.nextFontResource && m[p][f] == ResourceName("F", k)
    {
      if p == page && f == fontName {
        assert m[p][f] == ResourceName("F", d.nextFontResource);
      } else {
        assert f in d.pageFonts[p] && m[p][f] == d.pageFonts[p][f];
        var k: nat :| k < d.nextFontResource && d.pageFonts[p][f] == ResourceName("F", k);
        assert k < d'.nextFontResource;
      }
    }
    forall p, f, g | p in m && f in m[p] && g in m[p] && f != g ensures m[p][f] != m[p][g] {
      if p == page && (f == fontName || g == fontName) {
      } else {
        assert m[p][f] == d.pageFonts[p][f] && m[p][g] == d.pageFonts[p][g];
      }
    }
  }

  /** Asking again for the same font on the same page changes nothing. */
  lemma FontRefStable(d: Doc, fontName: string, page: nat)
    ensures var r := GetOrCreateFontRef(d, fontName, page);
      GetOrCreateFontRef(r.doc, fontName, page) == r
  {
  }

  // ---------------------------------------------------------------------
  // Page height
  // ---------------------------------------------------------------------

  /** The numeric value of a MediaBox entry, if it is a number. */
  function Number(v: BoxValue): Option<real>
  {
    match v
    case IntVal(i) => Some(i as real)
    case RealVal(x) => Some(x)
    case OtherVal => None
  }

  /** The box assumed when neither the page nor its parents have one (A4). */
  const A4Box: seq<BoxValue> := [IntVal(0), IntVal(0), RealVal(595.28), RealVal(841.89)]

  /** The box of a page made by `add_blank_page` (A4). */
  const BlankBox: seq<BoxValue> := [RealVal(0.0), RealVal(0.0), RealVal(595.28), RealVal(841.89)]

  /**
   * Height of a MediaBox `[x1 y1 x2 y2]`: `y2 - y1`. Fewer than four
   * entries, or a non-numeric `y1` or `y2`, is a parse error.
   */
  function ExtractHeight(box: seq<BoxValue>): (r: Result<real, PdfError>)
    ensures |box| < 4 ==> r == Err(ParseError("Invalid MediaBox format"))
    ensures |box| >= 4 && Number(box[1]).None? ==> r == Err(ParseError("Invalid MediaBox y1"))
    ensures |box| >= 4 && Number(box[1]).Some? && Number(box[3]).None? ==> r == Err(ParseError("Invalid MediaBox y2"))
    ensures r.Ok? ==> |box| >= 4 && Number(box[1]).Some? && Number(box[3]).Some?
                      && Number(box[1]).value + r.value == Number(box[3]).value
  {
    if |box| >= 4 then
      match Number(box[1])
      case None => Err(ParseError("Invalid MediaBox y1"))
      case Some(y1) =>
        match Number(box[3])
        case None => Err(ParseError("Invalid MediaBox y2"))
        case Some(y2) => Ok(y2 - y1)
    else Err(ParseError("Invalid MediaBox format"))
  }

  function MediaBoxOf(p: Page): seq<BoxValue>
  {
    match p.mediaBox
    case None => A4Box
    case Some(b) => b
  }

  /** The height of a page's MediaBox, y2 - y1; a page without its own box is A4. */
  function PageHeight(d: Doc, page: nat): (r: Result<real, PdfError>)
    requires 1 <= page <= |d.pages|
    ensures d.pages[page - 1].mediaBox.None? ==> r == Ok(841.89)
    ensures d.pages[page - 1].mediaBox.Some? ==> r == ExtractHeight(d.pages[page - 1].mediaBox.value)
  {
    ExtractHeight(MediaBoxOf(d.pages[page - 1]))
  }

  /** A page without a box, and a blank page, are 841.89 points high. */
  lemma DefaultHeights(p: Page)
    requires p.mediaBox.None? || p.mediaBox == Some(BlankBox)
    ensures ExtractHeight(MediaBoxOf(p)) == Ok(841.89)
  {
  }

  // ---------------------------------------------------------------------
  // Content buffering
  // ---------------------------------------------------------------------

  /** The bytes buffered for a page so far. */
  function Buffered(d: Doc, page: nat): seq<byte>
  {
    if page in d.buffers then d.buffers[page] else []
  }

  /** Appends operators to a page's buffer. */
  function BufferContent(d: Doc, page: nat, content: seq<byte>): (r: Doc)
    ensures Buffered(r, page) == Buffered(d, page) + content
    ensures forall p | p != page :: Buffered(r, p) == Buffered(d, p)
    ensures r == d.(buffers := r.buffers)
    ensures r.buffers.Keys == d.buffers.Keys + {page}
  {
    d.(buffers := d.buffers[page := Buffered(d, page) + content])
  }

  /**
   * Writes the buffers out: every page's content becomes its existing
   * content followed by its buffered bytes, and the buffers are emptied.
   */
  function Flush(d: Doc): (r: Doc)
    ensures |r.pages| == |d.pages| && r.buffers == map[]
    ensures forall i | 0 <= i < |d.pages| ::
      r.pages[i] == d.pages[i].(content := d.pages[i].content + Buffered(d, i + 1))
    ensures r == d.(pages := r.pages, buffers := map[])
  {
    var pages := seq(|d.pages|, i requires 0 <= i < |d.pages| =>
                       d.pages[i].(content := d.pages[i].content + Buffered(d, i + 1)));
    d.(pages := pages, buffers := map[])
  }

  /** Operators buffered one after the other reach the page in that order. */
  lemma FlushInOrder(d: Doc, page: nat, a: seq<byte>, b: seq<byte>)
    requires 1 <= page <= |d.pages| && page !in d.buffers
    ensures Flush(BufferContent(BufferContent(d, page, a), page, b)).pages[page - 1].content
            == d.pages[page - 1].content + a + b
  {
    var d2 := BufferContent(BufferContent(d, page, a), page, b);
    assert Buffered(d2, page) == a + b;
    assert d2.pages == d.pages;
  }

  // ---------------------------------------------------------------------
  // Inserting text
  // ---------------------------------------------------------------------

  /**
   * The font data name for the cursor, as written: the variant name the
   * family gives the weight and style, or the family name for a name that
   * is only a legacy font.
   */
  function GetCurrentFontName(d: Doc): (r: Result<string, PdfError>)
    ensures d.currentFamily.None? ==> r == Err(FontNotFound(NoFamily))
    ensures d.currentFamily.Some? && d.currentFamily.value in d.table.families ==>
      r == Ok(GetVariantName(d.currentFamily.value, d.weight, d.style))
    ensures d.currentFamily.Some? && d.currentFamily.value !in d.table.families ==> r == Ok(d.currentFamily.value)
  {
    match d.currentFamily
    case None => Err(FontNotFound(NoFamily))
    case Some(family) =>
      if family in d.table.families then Ok(GetVariantName(family, d.weight, d.style))
      else Ok(family)
  }

  /**
   * The font data name for the cursor, corrected: the name
   * `get_current_font_name` gives when some data carries it (a legacy
   * "{id}-bold" font, say), otherwise the name of the data `get_variant`
   * picks from the family for the weight and style.
   */
  function CurrentFontName(d: Doc): (r: Result<string, PdfError>)
    ensures d.currentFamily.None? ==> r == Err(FontNotFound(NoFamily))
    ensures d.currentFamily.Some? ==> r.Ok?
    ensures Valid(d) && r.Ok? ==> FontDataNamed(d.table, r.value).Ok?
    ensures GetCurrentFontName(d).Ok? && FontDataNamed(d.table, GetCurrentFontName(d).value).Ok? ==>
      r == GetCurrentFontName(d)
  {
    match GetCurrentFontName(d)
    case Err(e) => Err(e)
    case Ok(name) =>
      if FontDataNamed(d.table, name).Ok? then Ok(name)
      else FamilyFontName(d)
  }

  /** The name of the data `get_variant` picks from the current family. */
  function FamilyFontName(d: Doc): (r: Result<string, PdfError>)
    requires d.currentFamily.Some?
    ensures r.Ok?
    ensures Valid(d) ==> FontDataNamed(d.table, r.value).Ok?
  {
    var family := d.currentFamily.value;
    if family in d.table.families then
      var f := d.table.families[family];
      match GetVariant(f, d.weight, d.style)
      case Some(v) =>
        VariantFallback(f, d.weight, d.style);
        var slot := FirstPresent(f, Preference(d.weight, d.style), 0).value;
        if Valid(d) then VariantFound(d.table, family, slot); Ok(v.name) else Ok(v.name)
      case None => Ok(GetVariantName(family, d.weight, d.style))
    else Ok(family)
  }


  /** The runs `insert_text` draws: by font availability when the family has fallbacks. */
  function InsertRuns(d: Doc, text: string, family: string, fontName: string): (r: seq<TextSegment>)
    ensures Concat(Texts(r)) == text
    ensures text != [] ==> |r| > 0
    ensures family !in d.fallbacks ==> r == [TextSegment(text, fontName)]
  {
    if family in d.fallbacks then SegmentTextByFont(d, text, family, fontName)
    else
      assert Concat(Texts([TextSegment(text, fontName)])) == text + Concat([]);
      [TextSegment(text, fontName)]
  }

  /** The width in points of each run, or the error of the first run whose font is missing. */
  function RunWidths(t: FontTable, runs: seq<TextSegment>, size: real): (r: Result<seq<real>, PdfError>)
    ensures r.Ok? <==> forall i | 0 <= i < |runs| :: FontDataNamed(t, runs[i].fontName).Ok?
    ensures r.Ok? ==> |r.value| == |runs|
    ensures r.Ok? ==> forall i | 0 <= i < |runs| ::
      r.value[i] == WidthPoints(FontDataNamed(t, runs[i].fontName).value, runs[i].text, size)
    ensures r.Err? ==> exists i | 0 <= i < |runs| ::
      && FontDataNamed(t, runs[i].fontName).Err? && r.error == FontNotFound(runs[i].fontName)
      && forall j | 0 <= j < i :: FontDataNamed(t, runs[j].fontName).Ok?
  {
    if |runs| == 0 then Ok([])
    else
      match FontDataNamed(t, runs[0].fontName)
      case Err(e) => Err(e)
      case Ok(fd) =>
        match RunWidths(t, runs[1..], size)
        case Err(e) => Err(e)
        case Ok(ws) =>
          assert forall i | 1 <= i < |runs| :: runs[i] == runs[1..][i - 1];
          Ok([WidthPoints(fd, runs[0].text, size)] + ws)
  }

  /** Lookups only grow their used characters from `t` to `u`. */
  ghost predicate Grows(t: FontTable, u: FontTable)
  {
    forall n | FontDataNamed(t, n).Ok? ::
      FontDataNamed(u, n).Ok? && FontDataNamed(t, n).value.usedChars <= FontDataNamed(u, n).value.usedChars
  }

  lemma AddCharsGrows(t: FontTable, name: string, text: string)
    requires FontDataNamed(t, name).Ok?
    ensures Grows(t, AddCharsTo(t, name, text).value)
    ensures forall c | c in text :: c in FontDataNamed(AddCharsTo(t, name, text).value, name).value.usedChars
  {
    var u := AddCharsTo(t, name, text).value;
    forall n | FontDataNamed(t, n).Ok?
      ensures FontDataNamed(u, n).Ok? && FontDataNamed(t, n).value.usedChars <= FontDataNamed(u, n).value.usedChars
    {
      AddCharsLookup(t, name, text, n);
    }
    AddCharsLookup(t, name, text, name);
  }

  /** The operation that draws one run, at `x`, with the current size and colour. */
  function RunOp(d: Doc, run: TextSegment, resourceName: string, page: nat, x: real, y: real): BufferedTextOp
  {
    BufferedTextOp(run.text, run.fontName, resourceName, page, x, y, d.fontSize, d.color)
  }

  /** Every font resource name `d` hands out is still handed out by `e`. */
  predicate KeepsRefs(d: Doc, e: Doc)
  {
    forall p, f | p in d.pageFonts && f in d.pageFonts[p] ::
      p in e.pageFonts && f in e.pageFonts[p] && e.pageFonts[p][f] == d.pageFonts[p][f]
  }

  /** `run`'s characters are recorded in the data its font name finds. */
  ghost predicate Recorded(t: FontTable, run: TextSegment)
  {
    FontDataNamed(t, run.fontName).Ok? &&
    forall c | c in run.text :: c in FontDataNamed(t, run.fontName).value.usedChars
  }

  /**
   * Draws one run at `x`: records its characters in its font, gets the
   * font's resource name on the page, and buffers the text operation.
   */
  function PlaceRun(d: Doc, run: TextSegment, page: nat, x: real, y: real): (r: Doc)
    requires FontDataNamed(d.table, run.fontName).Ok?
    ensures page in r.pageFonts && run.fontName in r.pageFonts[page]
    ensures r.textOps == d.textOps + [RunOp(d, run, r.pageFonts[page][run.fontName], page, x, y)]
    ensures Resembles(d.table, r.table) && Grows(d.table, r.table) && Recorded(r.table, run)
    ensures KeepsRefs(d, r)
    ensures r == d.(table := r.table, pageFonts := r.pageFonts, nextFontResource := r.nextFontResource,
                    textOps := r.textOps)
    ensures Valid(d) ==> Valid(r)
  {
    var t1 := AddCharsTo(d.table, run.fontName, run.text).value;
    AddCharsGrows(d.table, run.fontName, run.text);
    var d1 := d.(table := t1);
    ValidWithTable(d, t1);
    var named := GetOrCreateFontRef(d1, run.fontName, page);
    FontRefKeeps(d1, run.fontName, page);
    var r := named.doc.(textOps := named.doc.textOps + [RunOp(d, run, named.name, page, x, y)]);
    ValidIgnoresTextOps(named.doc, r);
    r
  }

  /** Validity does not depend on the buffered text operations. */
  lemma ValidIgnoresTextOps(d: Doc, e: Doc)
    requires e == d.(textOps := e.textOps)
    ensures Valid(d) == Valid(e)
  {
  }

  /** Getting a font's resource name keeps every name handed out before. */
  lemma FontRefKeeps(d: Doc, fontName: string, page: nat)
    ensures KeepsRefs(d, GetOrCreateFontRef(d, fontName, page).doc)
  {
    var e := GetOrCreateFontRef(d, fontName, page).doc;
    forall p, f | p in d.pageFonts && f in d.pageFonts[p]
      ensures p in e.pageFonts && f in e.pageFonts[p] && e.pageFonts[p][f] == d.pageFonts[p][f]
    {
      if p == page && fontName !in PageFonts(d, page) {
        assert f != fontName;
      }
    }
  }

  /** Replacing the font table by a resembling one keeps the document valid. */
  lemma ValidWithTable(d: Doc, t: FontTable)
    requires Resembles(d.table, t)
    ensures Valid(d) ==> Valid(d.(table := t))
  {
    if Valid(d) {
      forall k | k in t.families ensures t.families[k].regular.Some? {
        assert SameSlot(d.table.families[k], t.families[k], RegularSlot);
      }
    }
  }

  lemma ResemblesTrans(t: FontTable, u: FontTable, v: FontTable)
    requires Resembles(t, u) && Resembles(u, v)
    ensures Resembles(t, v)
  {
    forall k, s: Slot | k in t.families ensures SameSlot(t.families[k], v.families[k], s) {
      assert SameSlot(t.families[k], u.families[k], s) && SameSlot(u.families[k], v.families[k], s);
    }
  }

  lemma GrowsRecorded(t: FontTable, u: FontTable, run: TextSegment)
    requires Grows(t, u) && Recorded(t, run)
    ensures Recorded(u, run)
  {
  }

  /**
   * The text operations appended from `d` to `e` draw `runs` in order on
   * `page` at height `y`, each with its font's resource name on the page,
   * starting at `x` and advancing by each run's width.
   */
  predicate OpsPlaced(d: Doc, e: Doc, runs: seq<TextSegment>, ws: seq<real>, page: nat, x: real, y: real)
  {
    && |ws| == |runs|
    && OpsAppended(d, e, |runs|)
    && OpsDraw(d, e, runs, page, y)
    && OpsAdvance(d, e, runs, ws, x)
  }

  /** `e` has `count` more text operations than `d`, after `d`'s own. */
  predicate OpsAppended(d: Doc, e: Doc, count: nat)
  {
    |e.textOps| == |d.textOps| + count && e.textOps[..|d.textOps|] == d.textOps
  }

  /** The appended operations draw the runs' text in their fonts on `page` at height `y`. */
  predicate OpsDraw(d: Doc, e: Doc, runs: seq<TextSegment>, page: nat, y: real)
  {
    && |e.textOps| >= |d.textOps| + |runs|
    && forall i | 0 <= i < |runs| ::
         var op := e.textOps[|d.textOps| + i];
         && op.text == runs[i].text && op.fontName == runs[i].fontName && op.page == page
         && op.y == y && op.fontSize == d.fontSize && op.color == d.color
         && page in e.pageFonts && runs[i].fontName in e.pageFonts[page]
         && op.resourceName == e.pageFonts[page][runs[i].fontName]
  }

  /** The first appended operation starts at `x`; each next one starts a run's width further. */
  predicate OpsAdvance(d: Doc, e: Doc, runs: seq<TextSegment>, ws: seq<real>, x: real)
  {
    && |ws| == |runs| && |e.textOps| >= |d.textOps| + |runs|
    && (|runs| > 0 ==> e.textOps[|d.textOps|].x == x)
    && (forall i | 0 <= i < |runs| - 1 :: e.textOps[|d.textOps| + i + 1].x == e.textOps[|d.textOps| + i].x + ws[i])
  }

  /** Only used characters grow from `d` to `e`, and every run's characters are recorded. */
  ghost predicate CharsRecorded(d: Doc, e: Doc, runs: seq<TextSegment>)
  {
    && Resembles(d.table, e.table) && Grows(d.table, e.table)
    && (forall i | 0 <= i < |runs| :: Recorded(e.table, runs[i]))
  }

  /**
   * Draws the runs left to right from `x`, each with `PlaceRun`; the next
   * run starts where this one's width ends.
   */
  function PlaceRuns(d: Doc, runs: seq<TextSegment>, ws: seq<real>, page: nat, x: real, y: real): (r: Doc)
    requires |ws| == |runs|
    requires forall i | 0 <= i < |runs| :: FontDataNamed(d.table, runs[i].fontName).Ok?
    ensures OpsPlaced(d, r, runs, ws, page, x, y)
    ensures CharsRecorded(d, r, runs)
    ensures KeepsRefs(d, r)
    ensures r == d.(table := r.table, pageFonts := r.pageFonts, nextFontResource := r.nextFontResource,
                    textOps := r.textOps)
    ensures Valid(d) ==> Valid(r)
    decreases |runs|
  {
    if |runs| == 0 then
      NothingPlaced(d, runs, ws, page, x, y);
      d
    else
      var d1 := PlaceRun(d, runs[0], page, x, y);
      RestReady(d.table, d1.table, runs);
      var r := PlaceRuns(d1, runs[1..], ws[1..], page, x + ws[0], y);
      OpsPlacedStep(d, d1, r, runs, ws, page, x, y);
      CharsRecordedStep(d, d1, r, runs);
      r
  }

  lemma NothingPlaced(d: Doc, runs: seq<TextSegment>, ws: seq<real>, page: nat, x: real, y: real)
    requires |runs| == 0 && |ws| == 0
    ensures OpsPlaced(d, d, runs, ws, page, x, y) && CharsRecorded(d, d, runs) && KeepsRefs(d, d)
  {
    assert d.textOps[..|d.textOps|] == d.textOps;
  }

  /** Every run after the first still names a font once the first is placed. */
  lemma RestReady(t: FontTable, u: FontTable, runs: seq<TextSegment>)
    requires |runs| > 0 && Resembles(t, u)
    requires forall i | 0 <= i < |runs| :: FontDataNamed(t, runs[i].fontName).Ok?
    ensures forall i | 0 <= i < |runs[1..]| :: FontDataNamed(u, runs[1..][i].fontName).Ok?
  {
    forall i | 0 <= i < |runs[1..]| ensures FontDataNamed(u, runs[1..][i].fontName).Ok? {
      FontDataResembles(t, u, runs[i + 1].fontName);
    }
  }

  /** The first run's operation followed by the rest's are the operations of all runs. */
  lemma OpsPlacedStep(d: Doc, d1: Doc, r: Doc, runs: seq<TextSegment>, ws: seq<real>, page: nat, x: real, y: real)
    requires |ws| == |runs| > 0
    requires page in d1.pageFonts && runs[0].fontName in d1.pageFonts[page]
    requires d1.textOps == d.textOps + [RunOp(d, runs[0], d1.pageFonts[page][runs[0].fontName], page, x, y)]
    requires d1.fontSize == d.fontSize && d1.color == d.color
    requires KeepsRefs(d1, r)
    requires OpsPlaced(d1, r, runs[1..], ws[1..], page, x + ws[0], y)
    ensures OpsPlaced(d, r, runs, ws, page, x, y)
  {
    AppendedStep(d, d1, r, |runs|);
    DrawStep(d, d1, r, runs, page, x, y);
    AdvanceStep(d, d1, r, runs, ws, x);
  }

  lemma AppendedStep(d: Doc, d1: Doc, r: Doc, count: nat)
    requires count > 0 && |d1.textOps| == |d.textOps| + 1 && d1.textOps[..|d.textOps|] == d.textOps
    requires OpsAppended(d1, r, count - 1)
    ensures OpsAppended(d, r, count)
    ensures r.textOps[|d.textOps|] == d1.textOps[|d.textOps|]
  {
    var n := |d.textOps|;
    assert r.textOps[..n + 1] == d1.textOps;
    assert r.textOps[..n] == r.textOps[..n + 1][..n];
  }

  lemma DrawStep(d: Doc, d1: Doc, r: Doc, runs: seq<TextSegment>, page: nat, x: real, y: real)
    requires |runs| > 0
    requires page in d1.pageFonts && runs[0].fontName in d1.pageFonts[page]
    requires d1.textOps == d.textOps + [RunOp(d, runs[0], d1.pageFonts[page][runs[0].fontName], page, x, y)]
    requires d1.fontSize == d.fontSize && d1.color == d.color
    requires KeepsRefs(d1, r)
    requires OpsAppended(d1, r, |runs| - 1) && OpsDraw(d1, r, runs[1..], page, y)
    ensures OpsDraw(d, r, runs, page, y)
  {
    var n := |d.textOps|;
    var rest := runs[1..];
    assert r.textOps[..n + 1] == d1.textOps;
    forall i | 0 <= i < |runs|
      ensures var op := r.textOps[n + i];
        && op.text == runs[i].text && op.fontName == runs[i].fontName && op.page == page
        && op.y == y && op.fontSize == d.fontSize && op.color == d.color
        && page in r.pageFonts && runs[i].fontName in r.pageFonts[page]
        && op.resourceName == r.pageFonts[page][runs[i].fontName]
    {
      if i > 0 {
        assert runs[i] == rest[i - 1];
        assert r.textOps[n + i] == r.textOps[|d1.textOps| + (i - 1)];
      } else {
        assert r.textOps[n] == d1.textOps[n];
      }
    }
  }

  lemma AdvanceStep(d: Doc, d1: Doc, r: Doc, runs: seq<TextSegment>, ws: seq<real>, x: real)
    requires |ws| == |runs| > 0
    requires |d1.textOps| == |d.textOps| + 1 && d1.textOps[|d.textOps|].x == x
    requires OpsAppended(d1, r, |runs| - 1) && OpsAdvance(d1, r, runs[1..], ws[1..], x + ws[0])
    ensures OpsAdvance(d, r, runs, ws, x)
  {
    var n := |d.textOps|;
    assert r.textOps[..n + 1] == d1.textOps;
    assert r.textOps[n] == d1.textOps[n];
    forall i | 0 <= i < |runs| - 1 ensures r.textOps[n + i + 1].x == r.textOps[n + i].x + ws[i] {
      if i > 0 {
        assert r.textOps[n + i + 1] == r.textOps[|d1.textOps| + (i - 1) + 1];
        assert r.textOps[n + i] == r.textOps[|d1.textOps| + (i - 1)];
        assert ws[i] == ws[1..][i - 1];
      }
    }
  }

  lemma CharsRecordedStep(d: Doc, d1: Doc, r: Doc, runs: seq<TextSegment>)
    requires |runs| > 0
    requires Resembles(d.table, d1.table) && Grows(d.table, d1.table) && Recorded(d1.table, runs[0])
    requires CharsRecorded(d1, r, runs[1..])
    ensures CharsRecorded(d, r, runs)
  {
    forall i | 0 <= i < |runs| ensures Recorded(r.table, runs[i]) {
      if i == 0 {
        GrowsRecorded(d1.table, r.table, runs[0]);
      } else {
        assert runs[i] == runs[1..][i - 1];
      }
    }
    ResemblesTrans(d.table, d1.table, r.table);
  }

  /**
   * `insert_text` once the font name has been resolved to `fontName`. The
   * checks run in order: page number, empty text (nothing to do), current
   * family, font name, run fonts, page height; only then is anything
   * recorded.
   */
  function InsertTextNamed(d: Doc, text: string, page: nat, x: real, y: real, align: Align,
                           fontName: Result<string, PdfError>): (r: Result<Doc, PdfError>)
    ensures CheckPage(d, page).Some? ==> r == Err(CheckPage(d, page).value)
    ensures CheckPage(d, page).None? && text == [] ==> r == Ok(d)
    ensures CheckPage(d, page).None? && text != [] && d.currentFamily.None? ==> r == Err(FontNotFound(NoFamily))
    ensures CheckPage(d, page).None? && text != [] && d.currentFamily.Some? && fontName.Err? ==> r == Err(fontName.error)
    ensures CheckPage(d, page).None? && text != [] && d.currentFamily.Some? && fontName.Ok? ==>
      var runs := InsertRuns(d, text, d.currentFamily.value, fontName.value);
      |runs| > 0 && r == DrawRuns(d, runs, page, x, y, align)
  {
    if CheckPage(d, page).Some? then Err(CheckPage(d, page).value)
    else if text == [] then Ok(d)
    else if d.currentFamily.None? then Err(FontNotFound(NoFamily))
    else
      match fontName
      case Err(e) => Err(e)
      case Ok(name) =>
        var runs := InsertRuns(d, text, d.currentFamily.value, name);
        DrawRuns(d, runs, page, x, y, align)
  }

  /**
   * Measures the runs, reads the page height, and places the runs from the
   * anchor `x` (aligned over their total width) at `y` measured from the
   * top of the page.
   */
  function DrawRuns(d: Doc, runs: seq<TextSegment>, page: nat, x: real, y: real, align: Align): (r: Result<Doc, PdfError>)
    requires 1 <= page <= |d.pages|
    ensures r.Ok? <==> RunWidths(d.table, runs, d.fontSize).Ok? && PageHeight(d, page).Ok?
    ensures RunWidths(d.table, runs, d.fontSize).Err? ==> r == Err(RunWidths(d.table, runs, d.fontSize).error)
    ensures r.Ok? && RunWidths(d.table, runs, d.fontSize).Ok? && PageHeight(d, page).Ok? ==>
      var ws := RunWidths(d.table, runs, d.fontSize).value;
      && OpsPlaced(d, r.value, runs, ws, page, StartX(x, SumReal(ws), align), FromTop(PageHeight(d, page).value, y))
      && CharsRecorded(d, r.value, runs)
      && r.value == d.(table := r.value.table, pageFonts := r.value.pageFonts,
                       nextFontResource := r.value.nextFontResource, textOps := r.value.textOps)
      && (Valid(d) ==> Valid(r.value))
  {
    var widths := RunWidths(d.table, runs, d.fontSize);
    var height := PageHeight(d, page);
    if widths.Err? then Err(widths.error)
    else if height.Err? then Err(height.error)
    else Ok(PlaceRuns(d, runs, widths.value, page, StartX(x, SumReal(widths.value), align), FromTop(height.value, y)))
  }

  /** PDF's y coordinate (from the bottom) of a point `y` below the top of a page `height` high. */
  function FromTop(height: real, y: real): (r: real)
    ensures r + y == height
  {
    height - y
  }

  /** `insert_text` as written: the font name from `get_current_font_name`. */
  function InsertTextAsWritten(d: Doc, text: string, page: nat, x: real, y: real, align: Align): (r: Result<Doc, PdfError>)
    ensures CheckPage(d, page).Some? ==> r == Err(CheckPage(d, page).value)
    ensures CheckPage(d, page).None? && text == [] ==> r == Ok(d)
    ensures CheckPage(d, page).None? && text != [] && d.currentFamily.None? ==> r == Err(FontNotFound(NoFamily))
    ensures r.Ok? ==> r.value.pages == d.pages && r.value.currentFamily == d.currentFamily
  {
    InsertTextNamed(d, text, page, x, y, align, GetCurrentFontName(d))
  }

  /** `insert_text` with the font name resolved through the family's variant fallback. */
  function InsertText(d: Doc, text: string, page: nat, x: real, y: real, align: Align): (r: Result<Doc, PdfError>)
    ensures CheckPage(d, page).Some? ==> r == Err(CheckPage(d, page).value)
    ensures CheckPage(d, page).None? && text == [] ==> r == Ok(d)
    ensures CheckPage(d, page).None? && text != [] && d.currentFamily.None? ==> r == Err(FontNotFound(NoFamily))
    ensures r.Ok? ==> r.value.pages == d.pages && r.value.currentFamily == d.currentFamily
  {
    InsertTextNamed(d, text, page, x, y, align, CurrentFontName(d))
  }

  /**
   * With the name resolved through the family, inserting text into a
   * valid document fails only for a bad page number, a missing family or
   * an unreadable MediaBox.
   */
  lemma InsertTextSucceeds(d: Doc, text: string, page: nat, x: real, y: real, align: Align)
    requires Valid(d) && 1 <= page <= |d.pages| && d.currentFamily.Some?
    requires PageHeight(d, page).Ok?
    ensures InsertText(d, text, page, x, y, align).Ok?
  {
    var name := CurrentFontName(d).value;
    var family := d.currentFamily.value;
    var runs := InsertRuns(d, text, family, name);
    if family in d.fallbacks {
      RunFontsResolve(d, text, family, name);
    }
    assert RunWidths(d.table, runs, d.fontSize).Ok?;
  }

  /**
   * `insert_text` as written succeeds under the same conditions, once the
   * name `get_current_font_name` gives is the name of some font data.
   */
  lemma InsertTextAsWrittenSucceeds(d: Doc, text: string, page: nat, x: real, y: real, align: Align)
    requires Valid(d) && 1 <= page <= |d.pages| && d.currentFamily.Some?
    requires PageHeight(d, page).Ok?
    requires FontDataNamed(d.table, GetCurrentFontName(d).value).Ok?
    ensures InsertTextAsWritten(d, text, page, x, y, align).Ok?
  {
    var name := GetCurrentFontName(d).value;
    var family := d.currentFamily.value;
    var runs := InsertRuns(d, text, family, name);
    if family in d.fallbacks {
      RunFontsResolve(d, text, family, name);
    }
    assert RunWidths(d.table, runs, d.fontSize).Ok?;
  }

  /**
   * Without fallbacks, `insert_text` as written fails with `FontNotFound`
   * for that name when no font data carries it.
   */
  lemma InsertTextAsWrittenMisses(d: Doc, text: string, page: nat, x: real, y: real, align: Align)
    requires 1 <= page <= |d.pages| && text != [] && d.currentFamily.Some?
    requires d.currentFamily.value !in d.fallbacks
    requires FontDataNamed(d.table, GetCurrentFontName(d).value).Err?
    ensures InsertTextAsWritten(d, text, page, x, y, align) == Err(FontNotFound(GetCurrentFontName(d).value))
  {
    var name := GetCurrentFontName(d).value;
    var runs := InsertRuns(d, text, d.currentFamily.value, name);
    assert runs == [TextSegment(text, name)];
    assert RunWidths(d.table, runs, d.fontSize) == Err(FontNotFound(name));
  }

  /** A face with no glyphs, for the examples below. */
  function EmptyFace(data: seq<byte>): Result<Face, string>
  {
    Ok(Face(map[], map[], 1000))
  }

  /**
   * A family registered with a regular variant only, selected at regular
   * weight and normal style: the data is named "s-regular" but the name
   * looked up is "s", so `insert_text` as written fails with
   * `FontNotFound("s")`, while resolving through the family draws the text.
   */
  lemma RegularVariantNotFound()
    ensures var d0 := Open([Page(None, [])]);
      var b := FontFamilyBuilder(Some([]), None, None, None);
      && RegisterFontFamily(d0, "s", b, EmptyFace).Ok?
      && var d1 := RegisterFontFamily(d0, "s", b, EmptyFace).value;
      && SetFont(d1, "s", 12.0).Ok?
      && var d2 := SetFont(d1, "s", 12.0).value;
      && InsertTextAsWritten(d2, "A", 1, 0.0, 0.0, Left) == Err(FontNotFound("s"))
      && InsertText(d2, "A", 1, 0.0, 0.0, Left).Ok?
  {
    var d0 := Open([Page(None, [])]);
    var b := FontFamilyBuilder(Some([]), None, None, None);
    ExampleBuild();
    var d1 := RegisterFontFamily(d0, "s", b, EmptyFace).value;
    assert d1.table == FontTable(map[], ["s"], map["s" := ExampleFamily()]);
    var d2 := SetFont(d1, "s", 12.0).value;
    AsWrittenMisses(d2);
    DefaultHeights(d2.pages[0]);
    InsertTextSucceeds(d2, "A", 1, 0.0, 0.0, Left);
  }

  /** The family of the example: a regular variant named "s-regular", with no glyphs. */
  function ExampleFamily(): FontFamily
  {
    FontFamily(Some(FontData(DataName("s", RegularSlot), [], {}, Some(Face(map[], map[], 1000)))), None, None, None)
  }

  lemma ExampleBuild()
    ensures Build(FontFamilyBuilder(Some([]), None, None, None), "s", EmptyFace) == Ok(ExampleFamily())
  {
    var b := FontFamilyBuilder(Some([]), None, None, None);
    assert BuildSlot(b, "s", RegularSlot, EmptyFace) == Ok(ExampleFamily().regular);
    assert BuildSlot(b, "s", BoldSlot, EmptyFace) == Ok(None);
    assert BuildSlot(b, "s", ItalicSlot, EmptyFace) == Ok(None);
    assert BuildSlot(b, "s", BoldItalicSlot, EmptyFace) == Ok(None);
  }

  /** The family name "s" is not the name of any font data of the example table. */
  lemma AsWrittenMisses(d: Doc)
    requires d.table == FontTable(map[], ["s"], map["s" := ExampleFamily()])
    requires d.currentFamily == Some("s") && d.weight == Regular && d.style == Normal
    requires "s" !in d.fallbacks && |d.pages| == 1
    ensures InsertTextAsWritten(d, "A", 1, 0.0, 0.0, Left) == Err(FontNotFound("s"))
  {
    var family := ExampleFamily();
    assert GetCurrentFontName(d) == Ok("s");
    assert "s" != family.regular.value.name by {
      assert |family.regular.value.name| == 9;
    }
    assert SlotNamed(family, "s", 0).None?;
    assert FamilyWith(d.table, "s", 0).None?;
    assert FontDataNamed(d.table, "s") == Err(FontNotFound("s"));
    var runs := InsertRuns(d, "A", "s", "s");
    assert RunWidths(d.table, runs, d.fontSize) == Err(FontNotFound("s"));
  }

  // ---------------------------------------------------------------------
  // Images
  // ---------------------------------------------------------------------

  /** The first embedded image made from exactly these bytes. */
  function ImageIndex(images: seq<EmbeddedImage>, data: seq<byte>, i: nat): (r: Option<nat>)
    requires i <= |images|
    ensures r.Some? ==> i <= r.value < |images| && images[r.value].source == data
    ensures r.None? ==> forall k | i <= k < |images| :: images[k].source != data
    decreases |images| - i
  {
    if i == |images| then None
    else if images[i].source == data then Some(i)
    else ImageIndex(images, data, i + 1)
  }

  /**
   * The XObject for image bytes: the JPEG reader first, then the PNG
   * decoder `fromPng`, whose error message is reported when both fail.
   * That message is the `Display` text of the decoder's `PdfError`, so for
   * an image error it already carries the "Image error: " prefix.
   */
  function MakeXObject(data: seq<byte>, fromPng: seq<byte> -> Result<ImageXObject, string>): Result<ImageXObject, PdfError>
  {
    match FromJpeg(data)
    case Ok(x) => Ok(x)
    case Err(_) =>
      match fromPng(data)
      case Ok(x) => Ok(x)
      case Err(e) => Err(ImageError("Failed to create image XObject: " + e))
  }

  /**
   * Image bookkeeping: no two embedded images have the same bytes, and on
   * each page the image references point at embedded images, are named
   * `Im{k}` below the counter, and differ in image and in name.
   */
  predicate ImagesValid(d: Doc)
  {
    && (forall i, j | 0 <= i < j < |d.images| :: d.images[i].source != d.images[j].source)
    && (forall p, i | p in d.pageImages && 0 <= i < |d.pageImages[p]| ::
          && d.pageImages[p][i].id < |d.images|
          && exists k: nat :: k < d.nextImageResource && d.pageImages[p][i].name == ResourceName("Im", k))
    && (forall p, i, j | p in d.pageImages && 0 <= i < j < |d.pageImages[p]| ::
          d.pageImages[p][i].id != d.pageImages[p][j].id && d.pageImages[p][i].name != d.pageImages[p][j].name)
    && d.nextImageResource >= 1
  }

  lemma OpenImagesValid(pages: seq<Page>)
    ensures ImagesValid(Open(pages)) && Open(pages).images == []
  {
  }

  function PageImages(d: Doc, page: nat): seq<ImageRef>
  {
    if page in d.pageImages then d.pageImages[page] else []
  }

  /** The first reference to image `id` among `refs`. */
  function RefFor(refs: seq<ImageRef>, id: nat, i: nat): (r: Option<nat>)
    requires i <= |refs|
    ensures r.Some? ==> i <= r.value < |refs| && refs[r.value].id == id
    ensures r.None? ==> forall k | i <= k < |refs| :: refs[k].id != id
    decreases |refs| - i
  {
    if i == |refs| then None
    else if refs[i].id == id then Some(i)
    else RefFor(refs, id, i + 1)
  }

  /** An image placed on a page: its resource name there, its index and its pixel size. */
  datatype ImageUse = ImageUse(doc: Doc, name: string, id: nat, width: nat, height: nat)

  /** The embedded images after embedding some bytes, and the index of those bytes' image. */
  datatype Embedded = Embedded(images: seq<EmbeddedImage>, id: nat)

  /** Embeds the image unless the same bytes already are. */
  function EmbedImage(d: Doc, data: seq<byte>, fromPng: seq<byte> -> Result<ImageXObject, string>): (r: Result<Embedded, PdfError>)
    ensures r.Err? <==> ImageIndex(d.images, data, 0).None? && MakeXObject(data, fromPng).Err?
    ensures r.Err? ==> r.error == MakeXObject(data, fromPng).error
    ensures r.Ok? ==> r.value.id < |r.value.images| && r.value.images[r.value.id].source == data
    ensures r.Ok? && ImageIndex(d.images, data, 0).Some? ==>
      r.value == Embedded(d.images, ImageIndex(d.images, data, 0).value)
    ensures r.Ok? && ImageIndex(d.images, data, 0).None? ==>
      r.value == Embedded(d.images + [EmbeddedImage(data, MakeXObject(data, fromPng).value)], |d.images|)
  {
    match ImageIndex(d.images, data, 0)
    case Some(id) => Ok(Embedded(d.images, id))
    case None =>
      match MakeXObject(data, fromPng)
      case Err(e) => Err(e)
      case Ok(x) => Ok(Embedded(d.images + [EmbeddedImage(data, x)], |d.images|))
  }

  /**
   * The page's resource name for embedded image `e.id`: the existing one,
   * or `Im{n}` from the document-wide counter, which then advances. The
   * pixel size is read back from the embedded image stream.
   */
  function ImageRefOnPage(d: Doc, e: Embedded, page: nat): (r: ImageUse)
    requires e.id < |e.images|
    ensures r.id == e.id && r.doc.images == e.images
    ensures r.width == e.images[e.id].xobject.width && r.height == e.images[e.id].xobject.height
    ensures ImageRef(r.name, r.id) in PageImages(r.doc, page)
    ensures r.doc == d.(images := e.images, pageImages := r.doc.pageImages, nextImageResource := r.doc.nextImageResource)
    ensures forall p | p != page :: PageImages(r.doc, p) == PageImages(d, p)
    ensures RefFor(PageImages(d, page), e.id, 0).Some? ==>
      r.doc.pageImages == d.pageImages && r.doc.nextImageResource == d.nextImageResource
    ensures RefFor(PageImages(d, page), e.id, 0).None? ==>
      && r.name == ResourceName("Im", d.nextImageResource)
      && PageImages(r.doc, page) == PageImages(d, page) + [ImageRef(r.name, r.id)]
      && r.doc.nextImageResource == d.nextImageResource + 1
  {
    var x := e.images[e.id].xobject;
    PdfStreamRoundTrip(x);
    var back := FromPdfStream(ToPdfStream(x)).value;
    var refs := PageImages(d, page);
    match RefFor(refs, e.id, 0)
    case Some(k) =>
      ImageUse(d.(images := e.images), refs[k].name, e.id, back.width, back.height)
    case None =>
      var name := ResourceName("Im", d.nextImageResource);
      var d1 := d.(images := e.images, pageImages := d.pageImages[page := refs + [ImageRef(name, e.id)]],
                   nextImageResource := d.nextImageResource + 1);
      ImageUse(d1, name, e.id, back.width, back.height)
  }

  /**
   * Embeds the image unless the same bytes already are, then returns the
   * page's resource name for it (`ImageRefOnPage`).
   */
  function GetOrCreateImageRef(d: Doc, data: seq<byte>, page: nat,
                               fromPng: seq<byte> -> Result<ImageXObject, string>): (r: Result<ImageUse, PdfError>)
    ensures r.Err? <==> ImageIndex(d.images, data, 0).None? && MakeXObject(data, fromPng).Err?
    ensures r.Err? ==> r.error == MakeXObject(data, fromPng).error
    ensures r.Ok? ==>
      && EmbedImage(d, data, fromPng).Ok?
      && r.value == ImageRefOnPage(d, EmbedImage(d, data, fromPng).value, page)
      && r.value.doc.images == EmbedImage(d, data, fromPng).value.images
      && r.value.doc.images[r.value.id].source == data
    ensures r.Ok? && ImagesValid(d) ==> ImagesValid(r.value.doc)
  {
    match EmbedImage(d, data, fromPng)
    case Err(e) => Err(e)
    case Ok(e) =>
      ImageRefKeepsValid(d, e, data, page);
      Ok(ImageRefOnPage(d, e, page))
  }

  lemma ImageRefKeepsValid(d: Doc, e: Embedded, data: seq<byte>, page: nat)
    requires e.id < |e.images|
    requires e.images == d.images || (ImageIndex(d.images, data, 0).None? && |e.images| == |d.images| + 1
             && e.images[..|d.images|] == d.images && e.images[|d.images|].source == data)
    ensures ImagesValid(d) ==> ImagesValid(ImageRefOnPage(d, e, page).doc)
  {
    var u := ImageRefOnPage(d, e, page);
    if RefFor(PageImages(d, page), e.id, 0).None? {
      ImageRefAdded(d, u.doc, data, page, e.id, u.name);
    } else {
      ImageEmbedded(d, u.doc, data);
    }
  }

  /** Embedding bytes not yet embedded, or nothing, keeps the images distinct. */
  lemma ImageEmbedded(d: Doc, d1: Doc, data: seq<byte>)
    requires d1 == d.(images := d1.images)
    requires d1.images == d.images || (ImageIndex(d.images, data, 0).None? && |d1.images| == |d.images| + 1
             && d1.images[..|d.images|] == d.images && d1.images[|d.images|].source == data)
    ensures ImagesValid(d) ==> ImagesValid(d1)
  {
    if ImagesValid(d) && d1.images != d.images {
      forall i, j | 0 <= i < j < |d1.images| ensures d1.images[i].source != d1.images[j].source {
        assert d1.images[i] == d.images[i];
        if j < |d.images| {
          assert d1.images[j] == d.images[j];
        }
      }
    }
  }

  /** A fresh `Im{n}` reference to an embedded image keeps the references valid. */
  lemma ImageRefAdded(d: Doc, d1: Doc, data: seq<byte>, page: nat, id: nat, name: string)
    requires name == ResourceName("Im", d.nextImageResource)
    requires id < |d1.images| && RefFor(PageImages(d, page), id, 0).None?
    requires d1 == d.(images := d1.images, pageImages := d.pageImages[page := PageImages(d, page) + [ImageRef(name, id)]],
                      nextImageResource := d.nextImageResource + 1)
    requires d1.images == d.images || (ImageIndex(d.images, data, 0).None? && |d1.images| == |d.images| + 1
             && d1.images[..|d.images|] == d.images && d1.images[|d.images|].source == data)
    ensures ImagesValid(d) ==> ImagesValid(d1)
  {
    if ImagesValid(d) {
      var d0 := d.(images := d1.images);
      ImageEmbedded(d, d0, data);
      var refs := PageImages(d, page);
      var refs1 := refs + [ImageRef(name, id)];
      forall p, i | p in d1.pageImages && 0 <= i < |d1.pageImages[p]|
        ensures d1.pageImages[p][i].id < |d1.images|
        ensures exists k: nat :: k < d1.nextImageResource && d1.pageImages[p][i].name == ResourceName("Im", k)
      {
        if p == page && i == |refs| {
        } else {
          assert d1.pageImages[p][i] == d.pageImages[p][i];
          var k: nat :| k < d.nextImageResource && d.pageImages[p][i].name == ResourceName("Im", k);
          assert k < d1.nextImageResource;
        }
      }
      forall p, i, j | p in d1.pageImages && 0 <= i < j < |d1.pageImages[p]|
        ensures d1.pageImages[p][i].id != d1.pageImages[p][j].id && d1.pageImages[p][i].name != d1.pageImages[p][j].name
      {
        if p == page && j == |refs| {
          assert refs1[i] == refs[i];
          var k: nat :| k < d.nextImageResource && refs[i].name == ResourceName("Im", k);
          if refs[i].name == name {
            ResourceNameInjective("Im", k, d.nextImageResource);
          }
        } else {
          assert d1.pageImages[p][i] == d.pageImages[p][i] && d1.pageImages[p][j] == d.pageImages[p][j];
        }
      }
    }
  }

  /** Placing the same bytes on the same page again reuses the name and changes nothing. */
  lemma ImageRefStable(d: Doc, data: seq<byte>, page: nat, fromPng: seq<byte> -> Result<ImageXObject, string>)
    requires GetOrCreateImageRef(d, data, page, fromPng).Ok?
    ensures var u := GetOrCreateImageRef(d, data, page, fromPng).value;
      GetOrCreateImageRef(u.doc, data, page, fromPng) == Ok(u)
  {
    var e := EmbedImage(d, data, fromPng).value;
    var u := GetOrCreateImageRef(d, data, page, fromPng).value;
    EmbedStable(d, u.doc, data, fromPng);
    RefOnPageStable(d, e, page);
  }

  /** Embedding bytes that are already embedded finds the same image. */
  lemma EmbedStable(d: Doc, d1: Doc, data: seq<byte>, fromPng: seq<byte> -> Result<ImageXObject, string>)
    requires EmbedImage(d, data, fromPng).Ok? && d1.images == EmbedImage(d, data, fromPng).value.images
    ensures EmbedImage(d1, data, fromPng) == EmbedImage(d, data, fromPng)
  {
    if ImageIndex(d.images, data, 0).None? {
      assert d1.images[..|d.images|] == d.images;
      ImageIndexSkips(d1.images, data, 0, |d.images|);
    }
  }

  /** Asking again for the name of an image on a page returns the name just handed out. */
  lemma RefOnPageStable(d: Doc, e: Embedded, page: nat)
    requires e.id < |e.images|
    ensures ImageRefOnPage(ImageRefOnPage(d, e, page).doc, e, page) == ImageRefOnPage(d, e, page)
  {
    var u := ImageRefOnPage(d, e, page);
    var refs := PageImages(u.doc, page);
    if RefFor(PageImages(d, page), e.id, 0).None? {
      RefForSkips(refs, e.id, 0, |refs| - 1);
    }
  }

  lemma {:induction false} ImageIndexSkips(images: seq<EmbeddedImage>, data: seq<byte>, i: nat, j: nat)
    requires i <= j < |images| && images[j].source == data
    requires forall k | i <= k < j :: images[k].source != data
    ensures ImageIndex(images, data, i) == Some(j)
    decreases j - i
  {
    if i < j {
      ImageIndexSkips(images, data, i + 1, j);
    }
  }

  lemma {:induction false} RefForSkips(refs: seq<ImageRef>, id: nat, i: nat, j: nat)
    requires i <= j < |refs| && refs[j].id == id
    requires forall k | i <= k < j :: refs[k].id != id
    ensures RefFor(refs, id, i) == Some(j)
    decreases j - i
  {
    if i < j {
      RefForSkips(refs, id, i + 1, j);
    }
  }

  /** The fitting modes need a non-zero side to keep the aspect ratio of. */
  predicate Scalable(ow: nat, oh: nat, mode: ImageScaleMode)
  {
    && (mode == FitWidth ==> ow > 0)
    && (mode == FitHeight ==> oh > 0)
    && (mode == FitBox ==> ow > 0 && oh > 0)
  }

  /**
   * Draws an image with its top-left corner `y` points below the top of
   * the page: checks the page, embeds the image and gets its name, sizes
   * it by `mode`, reads the page height and buffers the drawing operators.
   * A failure to read the page height leaves the image embedded.
   */
  function InsertImageScaled(d: Doc, data: seq<byte>, page: nat, x: real, y: real, width: real, height: real,
                             mode: ImageScaleMode, fromPng: seq<byte> -> Result<ImageXObject, string>,
                             num: real -> string): (r: Step)
    ensures CheckPage(d, page).Some? ==> r == Step(d, CheckPage(d, page))
    ensures CheckPage(d, page).None? && GetOrCreateImageRef(d, data, page, fromPng).Err? ==>
      r == Step(d, Some(GetOrCreateImageRef(d, data, page, fromPng).error))
    ensures r.err.None? ==>
      && CheckPage(d, page).None? && GetOrCreateImageRef(d, data, page, fromPng).Ok?
      && var u := GetOrCreateImageRef(d, data, page, fromPng).value;
      && PageHeight(u.doc, page).Ok?
      && (Scalable(u.width, u.height, mode) ==>
            var size := CalculateScaledDimensions(u.width, u.height, width, height, mode);
            var bottom := FromTop(FromTop(PageHeight(u.doc, page).value, y), size.1);
            Buffered(r.doc, page) == Buffered(d, page) + Utf8(GenerateImageOperators(u.name, x, bottom, size.0, size.1, num)))
    ensures forall p | p != page :: Buffered(r.doc, p) == Buffered(d, p)
    ensures r.doc.pages == d.pages && r.doc.table == d.table && r.doc.textOps == d.textOps
    ensures Valid(d) ==> Valid(r.doc)
    ensures ImagesValid(d) ==> ImagesValid(r.doc)
  {
    if CheckPage(d, page).Some? then Step(d, CheckPage(d, page))
    else
      match GetOrCreateImageRef(d, data, page, fromPng)
      case Err(e) => Step(d, Some(e))
      case Ok(u) =>
        ValidIgnoresImages(d, u.doc);
        DrawImage(u, page, x, y, width, height, mode, num)
  }

  /** Validity does not depend on the image bookkeeping. */
  lemma ValidIgnoresImages(d: Doc, e: Doc)
    requires e == d.(images := e.images, pageImages := e.pageImages, nextImageResource := e.nextImageResource)
    ensures Valid(d) == Valid(e) && Buffered(d, 0) == Buffered(e, 0)
    ensures forall p :: Buffered(e, p) == Buffered(d, p)
  {
  }

  /**
   * Sizes a registered image by `mode`, reads the page height and buffers
   * the operators that draw it with its top-left corner `y` points below
   * the top of the page.
   */
  function DrawImage(u: ImageUse, page: nat, x: real, y: real, width: real, height: real,
                     mode: ImageScaleMode, num: real -> string): (r: Step)
    requires 1 <= page <= |u.doc.pages|
    ensures PageHeight(u.doc, page).Err? ==> r == Step(u.doc, Some(PageHeight(u.doc, page).error))
    ensures PageHeight(u.doc, page).Ok? && !Scalable(u.width, u.height, mode) ==> r == Step(u.doc, None)
    ensures PageHeight(u.doc, page).Ok? && Scalable(u.width, u.height, mode) ==>
      && r.err.None?
      && var size := CalculateScaledDimensions(u.width, u.height, width, height, mode);
         var bottom := FromTop(FromTop(PageHeight(u.doc, page).value, y), size.1);
         Buffered(r.doc, page) == Buffered(u.doc, page) + Utf8(GenerateImageOperators(u.name, x, bottom, size.0, size.1, num))
    ensures forall p | p != page :: Buffered(r.doc, p) == Buffered(u.doc, p)
    ensures r.doc == u.doc.(buffers := r.doc.buffers)
    ensures Valid(u.doc) ==> Valid(r.doc)
  {
    match PageHeight(u.doc, page)
    case Err(e) => Step(u.doc, Some(e))
    case Ok(pageHeight) =>
      if Scalable(u.width, u.height, mode) then
        var size := CalculateScaledDimensions(u.width, u.height, width, height, mode);
        var bottom := FromTop(FromTop(pageHeight, y), size.1);
        var ops := Utf8(GenerateImageOperators(u.name, x, bottom, size.0, size.1, num));
        Step(BufferContent(u.doc, page, ops), None)
      else Step(u.doc, None)
  }

  // ---------------------------------------------------------------------
  // Pages
  // ---------------------------------------------------------------------

  /** A document and the number of a page in it. */
  datatype Numbered = Numbered(doc: Doc, page: nat)

  /** Appends an empty A4 page and returns its number. */
  function AddBlankPage(d: Doc): (r: Numbered)
    ensures r.page == |d.pages| + 1 == |r.doc.pages| && r.doc.pages[..|d.pages|] == d.pages
    ensures r.doc.pages[|d.pages|].content == [] && PageHeight(r.doc, r.page) == Ok(841.89)
    ensures r.doc == d.(pages := r.doc.pages)
    ensures Valid(d) ==> Valid(r.doc)
  {
    var blank := Page(Some(BlankBox), []);
    DefaultHeights(blank);
    Numbered(d.(pages := d.pages + [blank]), |d.pages| + 1)
  }

  /**
   * Appends a copy of a page and returns its number. The copy gets the
   * committed content and, when the original has them, its font and image
   * resource names; content still buffered for the original is not copied.
   */
  function DuplicatePage(d: Doc, page: nat): (r: Result<Numbered, PdfError>)
    ensures r.Err? <==> CheckPage(d, page).Some?
    ensures r.Err? ==> r.error == CheckPage(d, page).value
    ensures r.Ok? ==>
      var n := |d.pages| + 1;
      && r.value.page == n && r.value.doc.pages == d.pages + [d.pages[page - 1]]
      && PageHeight(r.value.doc, n) == PageHeight(d, page)
      && (page in d.pageFonts ==> PageFonts(r.value.doc, n) == PageFonts(d, page))
      && (page !in d.pageFonts ==> r.value.doc.pageFonts == d.pageFonts)
      && (page in d.pageImages ==> PageImages(r.value.doc, n) == PageImages(d, page))
      && (page !in d.pageImages ==> r.value.doc.pageImages == d.pageImages)
      && (forall p | p != n :: PageFonts(r.value.doc, p) == PageFonts(d, p) && PageImages(r.value.doc, p) == PageImages(d, p))
      && r.value.doc.buffers == d.buffers && r.value.doc.table == d.table
    ensures r.Ok? && Valid(d) ==> Valid(r.value.doc) && Buffered(r.value.doc, r.value.page) == []
    ensures r.Ok? && ImagesValid(d) ==> ImagesValid(r.value.doc)
  {
    if CheckPage(d, page).Some? then Err(CheckPage(d, page).value)
    else
      var n := |d.pages| + 1;
      var fonts := if page in d.pageFonts then d.pageFonts[n := d.pageFonts[page]] else d.pageFonts;
      var images := if page in d.pageImages then d.pageImages[n := d.pageImages[page]] else d.pageImages;
      var d1 := d.(pages := d.pages + [d.pages[page - 1]], pageFonts := fonts, pageImages := images);
      DuplicateKeepsValid(d, d1, page);
      DuplicateCopies(d, d1, page);
      Ok(Numbered(d1, n))
  }

  /** `d1` is `d` with page `page` appended again, its fonts and images with it. */
  predicate DuplicateOf(d: Doc, d1: Doc, page: nat)
    requires 1 <= page <= |d.pages|
  {
    d1 == d.(pages := d.pages + [d.pages[page - 1]],
             pageFonts := if page in d.pageFonts then d.pageFonts[|d.pages| + 1 := d.pageFonts[page]] else d.pageFonts,
             pageImages := if page in d.pageImages then d.pageImages[|d.pages| + 1 := d.pageImages[page]] else d.pageImages)
  }

  /** The copy has the original's height, fonts and images; every other page keeps its own. */
  lemma DuplicateCopies(d: Doc, d1: Doc, page: nat)
    requires 1 <= page <= |d.pages| && DuplicateOf(d, d1, page)
    ensures var n := |d.pages| + 1;
      && PageHeight(d1, n) == PageHeight(d, page)
      && (page in d.pageFonts ==> PageFonts(d1, n) == PageFonts(d, page))
      && (page in d.pageImages ==> PageImages(d1, n) == PageImages(d, page))
      && (forall p | p != n :: PageFonts(d1, p) == PageFonts(d, p) && PageImages(d1, p) == PageImages(d, p))
  {
    var n := |d.pages| + 1;
    forall p | p != n ensures PageFonts(d1, p) == PageFonts(d, p) && PageImages(d1, p) == PageImages(d, p) {
      assert p in d1.pageFonts <==> p in d.pageFonts;
      assert p in d1.pageImages <==> p in d.pageImages;
    }
  }

  lemma DuplicateKeepsValid(d: Doc, d1: Doc, page: nat)
    requires 1 <= page <= |d.pages| && DuplicateOf(d, d1, page)
    ensures Valid(d) ==> Valid(d1) && Buffered(d1, |d.pages| + 1) == []
    ensures ImagesValid(d) ==> ImagesValid(d1)
  {
    DuplicateFontsValid(d, d1, page);
    DuplicateImagesValid(d, d1, page);
  }

  lemma DuplicateFontsValid(d: Doc, d1: Doc, page: nat)
    requires 1 <= page <= |d.pages| && DuplicateOf(d, d1, page)
    ensures Valid(d) ==> Valid(d1) && Buffered(d1, |d.pages| + 1) == []
  {
    var n := |d.pages| + 1;
    if Valid(d) {
      forall p, f | p in d1.pageFonts && f in d1.pageFonts[p]
        ensures exists k: nat :: k < d1.nextFontResource && d1.pageFonts[p][f] == ResourceName("F", k)
      {
        var q := if p == n && page in d.pageFonts then page else p;
        assert d1.pageFonts[p] == d.pageFonts[q];
      }
      forall p, f, g | p in d1.pageFonts && f in d1.pageFonts[p] && g in d1.pageFonts[p] && f != g
        ensures d1.pageFonts[p][f] != d1.pageFonts[p][g]
      {
        var q := if p == n && page in d.pageFonts then page else p;
        assert d1.pageFonts[p] == d.pageFonts[q];
      }
    }
  }

  lemma DuplicateImagesValid(d: Doc, d1: Doc, page: nat)
    requires 1 <= page <= |d.pages| && DuplicateOf(d, d1, page)
    ensures ImagesValid(d) ==> ImagesValid(d1)
  {
    var n := |d.pages| + 1;
    if ImagesValid(d) {
      forall p, i | p in d1.pageImages && 0 <= i < |d1.pageImages[p]|
        ensures d1.pageImages[p][i].id < |d1.images|
        ensures exists k: nat :: k < d1.nextImageResource && d1.pageImages[p][i].name == ResourceName("Im", k)
      {
        var q := if p == n && page in d.pageImages then page else p;
        assert d1.pageImages[p] == d.pageImages[q];
      }
      forall p, i, j | p in d1.pageImages && 0 <= i < j < |d1.pageImages[p]|
        ensures d1.pageImages[p][i].id != d1.pageImages[p][j].id && d1.pageImages[p][i].name != d1.pageImages[p][j].name
      {
        var q := if p == n && page in d.pageImages then page else p;
        assert d1.pageImages[p] == d.pageImages[q];
      }
    }
  }

  /**
   * Content buffered for a page before it is duplicated reaches only the
   * original: after flushing, the copy has the page's committed content.
   */
  lemma DuplicateLeavesBufferBehind(d: Doc, page: nat)
    requires Valid(d) && 1 <= page <= |d.pages|
    ensures var n := DuplicatePage(d, page).value.page;
      var f := Flush(DuplicatePage(d, page).value.doc);
      && f.pages[n - 1] == d.pages[page - 1]
      && f.pages[page - 1].content == d.pages[page - 1].content + Buffered(d, page)
  {
    var d1 := DuplicatePage(d, page).value.doc;
    assert d1.pages[page - 1] == d.pages[page - 1];
    assert d1.pages[|d.pages|].content + [] == d.pages[page - 1].content;
  }
}
