/**
 * The template renderer's pure helpers: truthiness and enable bindings,
 * the pages a block is drawn on, ISO date parsing, and where the text,
 * field-form and table blocks place their `insert_text` calls. A block's
 * drawing is described as the list of calls it makes, in order; `Perform`
 * runs such a list through the document's `insert_text` as written, and
 * `PerformCorrected` through the corrected font-name lookup.
 */
module Renderer {
  import opened Results
  import opened Strs
  import opened Binding
  import opened TextOps
  import Dictionary
  import Wordcut
  import Document
  import Fonts
  import PdfErrors

  /** The errors the renderer raises itself. */
  datatype TemplateError = RenderError(message: string)

  // ---------------------------------------------------------------------
  // Truthiness and enable bindings
  // ---------------------------------------------------------------------

  /**
   * Null is false, a boolean is itself, a number is true when non-zero,
   * and strings, arrays and objects are true when non-empty.
   */
  predicate IsTruthy(v: Json): (b: bool)
    ensures !b <==> v == JNull || v == JBool(false) || v == JNumber(0.0) || v == JString([])
                    || v == JArray([]) || v == JObject(map[])
  {
    match v
    case JNull => false
    case JBool(b) => b
    case JNumber(n) => n != 0.0
    case JString(s) => s != []
    case JArray(a) => a != []
    case JObject(o) => |o| > 0
  }

  /**
   * For nulls and booleans a value is truthy exactly when it renders as
   * "true"; a string is truthy exactly when it renders as non-empty text.
   */
  lemma TruthyText(v: Json, serialize: Json -> string)
    ensures v.JNull? || v.JBool? ==> (IsTruthy(v) <==> ValueToString(v, serialize) == "true")
    ensures v.JString? ==> (IsTruthy(v) <==> ValueToString(v, serialize) != "")
  {
  }

  /**
   * A block without an enable binding is drawn; one whose binding resolves
   * to nothing, or to a falsy value, is skipped.
   */
  function IsBlockEnabled(enable: Option<string>, data: Json): (r: bool)
    ensures enable.None? ==> r
    ensures enable.Some? && ResolveBinding(enable.value, data).None? ==> !r
    ensures enable.Some? && ResolveBinding(enable.value, data).Some? ==>
      (r <==> IsTruthy(ResolveBinding(enable.value, data).value))
  {
    match enable
    case None => true
    case Some(bind) =>
      match ResolveBinding(bind, data)
      case None => false
      case Some(v) => IsTruthy(v)
  }

  /** An enable binding "$.k" on an object tests the truthiness of key `k`. */
  lemma EnabledByKey(k: string, data: Json)
    requires PlainKey(k)
    ensures IsBlockEnabled(Some("$." + k), data) <==>
      data.JObject? && k in data.fields && IsTruthy(data.fields[k])
  {
    ResolveSingle(k, data);
  }

  // ---------------------------------------------------------------------
  // Pages
  // ---------------------------------------------------------------------

  /** The page numbers 1..=n in order. */
  function PageRange(n: nat): (r: seq<nat>)
    ensures |r| == n
    ensures forall i | 0 <= i < n :: r[i] == i + 1
  {
    if n == 0 then [] else PageRange(n - 1) + [n]
  }

  /**
   * The pages a block is drawn on: its own non-empty list, unchanged, or
   * else every page of the document.
   */
  function ResolvePages(pages: Option<seq<nat>>, total: nat): (r: seq<nat>)
    ensures pages.Some? && pages.value != [] ==> r == pages.value
    ensures !(pages.Some? && pages.value != []) ==>
      |r| == total && forall i | 0 <= i < total :: r[i] == i + 1
  {
    if pages.Some? && pages.value != [] then pages.value else PageRange(total)
  }

  /** Without an explicit list, every page drawn on exists. */
  lemma DefaultPagesExist(pages: Option<seq<nat>>, total: nat)
    requires !(pages.Some? && pages.value != [])
    ensures forall p | p in ResolvePages(pages, total) :: 1 <= p <= total
  {
    var r := ResolvePages(pages, total);
    forall p | p in r ensures 1 <= p <= total {
      var i :| 0 <= i < |r| && r[i] == p;
    }
  }

  // ---------------------------------------------------------------------
  // Dates
  // ---------------------------------------------------------------------

  /** `i32` values lie in -I32Bound..I32Bound. */
  const I32Bound: nat := 0x8000_0000
  /** `u32` values lie below U32Limit. */
  const U32Limit: nat := 0x1_0000_0000

  /**
   * Reads "YYYY-MM-DD": exactly three '-'-separated parts, a year that
   * parses as `i32` and a month and day that parse as `u32`, reported in
   * that order; then applies `format` to the three numbers. The ranges of
   * month and day are not checked.
   */
  function ParseAndFormatDate(text: string, format: (int, nat, nat) -> string): (r: Result<string, TemplateError>)
    ensures |Split(text, '-')| != 3 ==>
      r == Err(RenderError("Invalid date format: " + text + ". Expected YYYY-MM-DD"))
    ensures r.Ok? <==> var ps := Split(text, '-');
      && |ps| == 3
      && ParseSigned(ps[0], I32Bound).Some?
      && ParseUnsigned(ps[1], U32Limit).Some?
      && ParseUnsigned(ps[2], U32Limit).Some?
    ensures r.Ok? ==> var ps := Split(text, '-');
      r.value == format(ParseSigned(ps[0], I32Bound).value, ParseUnsigned(ps[1], U32Limit).value,
                        ParseUnsigned(ps[2], U32Limit).value)
    ensures var ps := Split(text, '-');
      |ps| == 3 && ParseSigned(ps[0], I32Bound).None? ==> r == Err(RenderError("Invalid year: " + ps[0]))
    ensures var ps := Split(text, '-');
      |ps| == 3 && ParseSigned(ps[0], I32Bound).Some? && ParseUnsigned(ps[1], U32Limit).None? ==>
      r == Err(RenderError("Invalid month: " + ps[1]))
    ensures var ps := Split(text, '-');
      |ps| == 3 && ParseSigned(ps[0], I32Bound).Some? && ParseUnsigned(ps[1], U32Limit).Some? &&
      ParseUnsigned(ps[2], U32Limit).None? ==>
      r == Err(RenderError("Invalid day: " + ps[2]))
  {
    var parts := Split(text, '-');
    if |parts| != 3 then Err(RenderError("Invalid date format: " + text + ". Expected YYYY-MM-DD"))
    else
      match ParseSigned(parts[0], I32Bound)
      case None => Err(RenderError("Invalid year: " + parts[0]))
      case Some(year) =>
        match ParseUnsigned(parts[1], U32Limit)
        case None => Err(RenderError("Invalid month: " + parts[1]))
        case Some(month) =>
          match ParseUnsigned(parts[2], U32Limit)
          case None => Err(RenderError("Invalid day: " + parts[2]))
          case Some(day) => Ok(format(year, month, day))
  }

  lemma NoDash(n: nat)
    ensures '-' !in NatToString(n)
  {
    var s := NatToString(n);
    forall k | 0 <= k < |s| ensures s[k] != '-' {
      assert IsDigit(s[k]);
    }
  }

  lemma SplitThree(a: string, b: string, c: string)
    requires '-' !in a && '-' !in b && '-' !in c
    ensures Split(a + "-" + b + "-" + c, '-') == [a, b, c]
  {
    SplitNoSep(c, '-');
    SplitPrefix(b, c, '-');
    assert b + "-" + c == b + ['-'] + c;
    assert a + "-" + b + "-" + c == a + ['-'] + (b + "-" + c);
    SplitPrefix(a, b + "-" + c, '-');
  }

  /**
   * A date printed as "Y-M-D" from in-range numbers with a non-negative
   * year reads back as those numbers.
   */
  lemma DateRoundTrip(y: nat, m: nat, d: nat, format: (int, nat, nat) -> string)
    requires y < I32Bound && m < U32Limit && d < U32Limit
    ensures ParseAndFormatDate(NatToString(y) + "-" + NatToString(m) + "-" + NatToString(d), format)
      == Ok(format(y, m, d))
  {
    NoDash(y);
    NoDash(m);
    NoDash(d);
    SplitThree(NatToString(y), NatToString(m), NatToString(d));
    ParseIntToString(y, I32Bound);
    assert IntToString(y) == NatToString(y);
    ParseNatToString(m, U32Limit);
    ParseNatToString(d, U32Limit);
  }

  /** A negative year adds a fourth part, so the text is not a date. */
  lemma NegativeYearRejected(y: nat, m: nat, d: nat, format: (int, nat, nat) -> string)
    requires y > 0
    ensures var text := IntToString(-(y as int)) + "-" + NatToString(m) + "-" + NatToString(d);
      ParseAndFormatDate(text, format) ==
      Err(RenderError("Invalid date format: " + text + ". Expected YYYY-MM-DD"))
  {
    NegativeYearParts(y, m, d);
  }

  /** The leading minus sign of a negative year splits off an empty part. */
  lemma NegativeYearParts(y: nat, m: nat, d: nat)
    requires y > 0
    ensures |Split(IntToString(-(y as int)) + "-" + NatToString(m) + "-" + NatToString(d), '-')| == 4
  {
    NoDash(y);
    NoDash(m);
    NoDash(d);
    assert IntToString(-(y as int)) == "-" + NatToString(y);
    SignedThree(NatToString(y), NatToString(m), NatToString(d));
  }

  lemma SignedThree(a: string, b: string, c: string)
    requires '-' !in a && '-' !in b && '-' !in c
    ensures |Split("-" + a + "-" + b + "-" + c, '-')| == 4
  {
    var tail := a + "-" + b + "-" + c;
    SplitThree(a, b, c);
    LeadAssoc("-", a, "-", b, "-", c);
    LeadSep(tail);
  }

  lemma LeadAssoc(p: string, a: string, q: string, b: string, r: string, c: string)
    ensures p + a + q + b + r + c == p + (a + q + b + r + c)
  {
    AppendAssoc(p, a, q);
    AppendAssoc(p, a + q, b);
    AppendAssoc(p, a + q + b, r);
    AppendAssoc(p, a + q + b + r, c);
  }

  /** A leading dash splits off an empty first field. */
  lemma LeadSep(tail: string)
    ensures Split("-" + tail, '-') == [""] + Split(tail, '-')
  {
    assert "-" + tail == [] + ['-'] + tail;
    SplitPrefix([], tail, '-');
  }

  // ---------------------------------------------------------------------
  // Draw lists
  // ---------------------------------------------------------------------

  /** One `insert_text(text, page, x, y, align)` call. */
  datatype TextCall = TextCall(text: string, page: nat, x: real, y: real, align: Align)

  /** All calls of a list are on page `page`. */
  predicate OnPage(calls: seq<TextCall>, page: nat)
  {
    forall k | 0 <= k < |calls| :: calls[k].page == page
  }

  /** The same drawing repeated on each page in turn (`for page in pages`). */
  function OnPages(pages: seq<nat>, calls: nat -> seq<TextCall>): (r: seq<TextCall>)
  {
    if pages == [] then [] else calls(pages[0]) + OnPages(pages[1..], calls)
  }

  /** Each page's drawing, page by page. */
  function PerPage(pages: seq<nat>, calls: nat -> seq<TextCall>): (r: seq<seq<TextCall>>)
    ensures |r| == |pages|
    ensures forall j | 0 <= j < |pages| :: r[j] == calls(pages[j])
  {
    seq(|pages|, j requires 0 <= j < |pages| => calls(pages[j]))
  }

  lemma {:induction false} OnPagesConcat(pages: seq<nat>, calls: nat -> seq<TextCall>)
    ensures OnPages(pages, calls) == Concat(PerPage(pages, calls))
  {
    if pages != [] {
      OnPagesConcat(pages[1..], calls);
      assert PerPage(pages, calls)[1..] == PerPage(pages[1..], calls);
    }
  }

  /**
   * When each page's drawing has `n` calls, call `k` of the `j`-th page
   * sits at `j * n + k`.
   */
  lemma OnPagesAt(pages: seq<nat>, calls: nat -> seq<TextCall>, n: nat, j: nat, k: nat, idx: nat)
    requires forall i | 0 <= i < |pages| :: |calls(pages[i])| == n
    requires j < |pages| && k < n && idx == j * n + k
    ensures idx < |OnPages(pages, calls)| && OnPages(pages, calls)[idx] == calls(pages[j])[k]
  {
    OnPagesConcat(pages, calls);
    ConcatUniform(PerPage(pages, calls), n, j, k);
  }

  /** Every call lands on one of the pages, when each drawing stays on its page. */
  lemma {:induction false} OnPagesPages(pages: seq<nat>, calls: nat -> seq<TextCall>)
    requires forall p :: OnPage(calls(p), p)
    ensures forall k | 0 <= k < |OnPages(pages, calls)| :: OnPages(pages, calls)[k].page in pages
  {
    if pages != [] {
      OnPagesPages(pages[1..], calls);
      var r := OnPages(pages, calls);
      var head := calls(pages[0]);
      forall k | 0 <= k < |r| ensures r[k].page in pages {
        if k < |head| {
          assert OnPage(head, pages[0]);
        } else {
          assert r[k] == OnPages(pages[1..], calls)[k - |head|];
        }
      }
    }
  }

  // ---------------------------------------------------------------------
  // Text blocks
  // ---------------------------------------------------------------------

  /** A block's wrapping settings. */
  datatype WordWrap = WordWrap(maxChars: nat, lineHeight: real)

  /**
   * Wraps by dictionary segmentation when a dictionary is loaded, and on
   * spaces otherwise.
   */
  function Wrapped(text: string, maxChars: nat, wordcut: Option<Dictionary.Dict>): (r: seq<string>)
    ensures |r| >= 1
    ensures maxChars == 0 ==> r == [text]
    ensures wordcut.Some? ==> Concat(r) == text
  {
    match wordcut
    case Some(dict) => Wordcut.WordWrap(dict, text, maxChars)
    case None => SimpleWordWrap(text, maxChars)
  }

  /**
   * What a block is drawn with besides its own settings: serde_json's
   * printing of numbers, arrays and objects, and the line wrapper, which is
   * `Wrapper` of the loaded dictionary.
   */
  datatype Env = Env(serialize: Json -> string, wrap: (string, nat) -> seq<string>)

  function Wrapper(wordcut: Option<Dictionary.Dict>): (string, nat) -> seq<string>
  {
    (text: string, maxChars: nat) => Wrapped(text, maxChars, wordcut)
  }

  /** The lines of a text block: the whole text unless it wraps. */
  function BlockLines(text: string, wrap: Option<WordWrap>, env: Env): (r: seq<string>)
  {
    match wrap
    case None => [text]
    case Some(w) => env.wrap(text, w.maxChars)
  }

  /** The default line height is 13.5 points. */
  function LineHeight(wrap: Option<WordWrap>): (h: real)
  {
    match wrap
    case None => 13.5
    case Some(w) => w.lineHeight
  }

  /**
   * `n` steps of `h`, added one at a time as the renderer's loops add
   * them; `ScaleIsProduct` shows this is `n * h`.
   */
  function Scale(h: real, n: nat): real
  {
    if n == 0 then 0.0 else Scale(h, n - 1) + h
  }

  lemma {:induction false} ScaleIsProduct(h: real, n: nat)
    ensures Scale(h, n) == n as real * h
  {
    if n > 0 {
      ScaleIsProduct(h, n - 1);
      assert n as real * h == (n - 1) as real * h + h;
    }
  }

  lemma {:induction false} ScaleAdd(h: real, a: nat, b: nat)
    ensures Scale(h, a + b) == Scale(h, a) + Scale(h, b)
  {
    if b > 0 {
      ScaleAdd(h, a, b - 1);
    }
  }

  /** The `y` of line `k`: `k` line heights below `y`. */
  function LineY(y: real, lh: real, k: nat): real
  {
    y + Scale(lh, k)
  }

  /** Starting one line lower shifts every line by one. */
  lemma LineYShift(y: real, lh: real, n: nat)
    ensures forall k | 1 <= k < n :: LineY(y + lh, lh, k - 1) == LineY(y, lh, k)
  {
    forall k | 1 <= k < n ensures LineY(y + lh, lh, k - 1) == LineY(y, lh, k) {
      ScaleAdd(lh, 1, k - 1);
    }
  }

  /**
   * One page of a text block: the lines top to bottom, each `lh` below the
   * previous one (`y += line_height` after each line), so line `k` is
   * drawn `k` line heights below `y`.
   */
  function LineCalls(lines: seq<string>, page: nat, x: real, y: real, lh: real, align: Align): (r: seq<TextCall>)
    ensures |r| == |lines|
    ensures forall k | 0 <= k < |lines| :: r[k] == TextCall(lines[k], page, x, LineY(y, lh, k), align)
  {
    if lines == [] then []
    else
      var rest := LineCalls(lines[1..], page, x, y + lh, lh, align);
      LineYShift(y, lh, |lines|);
      [TextCall(lines[0], page, x, y, align)] + rest
  }

  /** One page of a text block, for each page number. */
  function TextPage(lines: seq<string>, x: real, y: real, lh: real, align: Align): nat -> seq<TextCall>
  {
    (p: nat) => LineCalls(lines, p, x, y, lh, align)
  }

  /** The calls of a text block whose text is `text`; empty text draws nothing. */
  function TextBlockCalls(text: string, wrap: Option<WordWrap>, env: Env,
                          pages: Option<seq<nat>>, total: nat, x: real, y: real, align: Align): seq<TextCall>
  {
    if text == [] then []
    else
      var lines := BlockLines(text, wrap, env);
      OnPages(ResolvePages(pages, total), TextPage(lines, x, y, LineHeight(wrap), align))
  }

  /**
   * On the `j`-th page, line `k` of a text block is drawn at
   * `y + k * line_height`, with a line height of 13.5 when the block does
   * not wrap.
   */
  lemma TextBlockLayout(text: string, wrap: Option<WordWrap>, env: Env,
                        pages: Option<seq<nat>>, total: nat, x: real, y: real, align: Align,
                        j: nat, k: nat, idx: nat)
    requires text != []
    requires j < |ResolvePages(pages, total)| && k < |BlockLines(text, wrap, env)|
    requires idx == j * |BlockLines(text, wrap, env)| + k
    ensures var r := TextBlockCalls(text, wrap, env, pages, total, x, y, align);
            var lines := BlockLines(text, wrap, env);
      && idx < |r|
      && r[idx] ==
           TextCall(lines[k], ResolvePages(pages, total)[j], x, LineY(y, LineHeight(wrap), k), align)
    ensures wrap.None? ==> LineHeight(wrap) == 13.5
  {
    var lines := BlockLines(text, wrap, env);
    var ps := ResolvePages(pages, total);
    var each := TextPage(lines, x, y, LineHeight(wrap), align);
    assert TextBlockCalls(text, wrap, env, pages, total, x, y, align) == OnPages(ps, each);
    OnPagesAt(ps, each, |lines|, j, k, idx);
    assert each(ps[j]) == LineCalls(lines, ps[j], x, y, LineHeight(wrap), align);
  }

  // ---------------------------------------------------------------------
  // Field forms
  // ---------------------------------------------------------------------

  /**
   * The character loop of a field form from index `i`, at `x`: draw the
   * character centred, then move right by `spacing[i]`, or stop when the
   * spacing list is used up. `x0` is where the block starts.
   */
  function FieldLoop(chars: string, spacing: seq<real>, i: nat, x0: real, x: real, page: nat, y: real): (r: seq<TextCall>)
    requires i <= |spacing|
    requires x == x0 + SumReal(spacing[..i])
    ensures |r| == if i < |chars| then Wordcut.Min(|chars|, |spacing| + 1) - i else 0
    ensures forall k | 0 <= k < |r| ::
      i + k < |chars| && k <= |spacing| - i &&
      r[k] == TextCall([chars[i + k]], page, x0 + SumReal(spacing[..i + k]), y, Center)
    decreases |chars| - i
  {
    if i >= |chars| then []
    else
      var here := TextCall([chars[i]], page, x, y, Center);
      if i < |spacing| then
        assert spacing[..i + 1][..i] == spacing[..i];
        [here] + FieldLoop(chars, spacing, i + 1, x0, x + spacing[i], page, y)
      else [here]
  }

  /**
   * One page of a field form: character `i` is drawn at `x` plus the
   * first `i` spacings, and at most one more character than there are
   * spacings is drawn.
   */
  function FieldCalls(text: string, spacing: seq<real>, page: nat, x: real, y: real): (r: seq<TextCall>)
    ensures |r| == Wordcut.Min(|text|, |spacing| + 1)
    ensures forall i | 0 <= i < |r| ::
      r[i] == TextCall([text[i]], page, x + SumReal(spacing[..i]), y, Center)
    ensures OnPage(r, page)
  {
    FieldLoop(text, spacing, 0, x, x, page, y)
  }

  /** Every page of a field form draws the same number of characters. */
  lemma FieldPageSizes(text: string, spacing: seq<real>, x: real, y: real, ps: seq<nat>)
    ensures forall i | 0 <= i < |ps| ::
      |FieldPage(text, spacing, x, y)(ps[i])| == Wordcut.Min(|text|, |spacing| + 1)
  {
  }

  /** One page of a field form, for each page number. */
  function FieldPage(text: string, spacing: seq<real>, x: real, y: real): nat -> seq<TextCall>
  {
    (p: nat) => FieldCalls(text, spacing, p, x, y)
  }

  /** The calls of a field form; empty text draws nothing. */
  function FieldFormCalls(text: string, spacing: seq<real>, pages: Option<seq<nat>>, total: nat,
                          x: real, y: real): seq<TextCall>
  {
    if text == [] then [] else OnPages(ResolvePages(pages, total), FieldPage(text, spacing, x, y))
  }

  /**
   * On the `j`-th page, character `i` of a field form is drawn at `x` plus
   * the first `i` spacings, for the first `min(|text|, |spacing| + 1)`
   * characters.
   */
  lemma FieldFormLayout(text: string, spacing: seq<real>, pages: Option<seq<nat>>, total: nat,
                        x: real, y: real, j: nat, i: nat, idx: nat)
    requires text != []
    requires j < |ResolvePages(pages, total)| && i < Wordcut.Min(|text|, |spacing| + 1)
    requires idx == j * Wordcut.Min(|text|, |spacing| + 1) + i
    ensures var r := FieldFormCalls(text, spacing, pages, total, x, y);
      && idx < |r|
      && r[idx] == TextCall([text[i]], ResolvePages(pages, total)[j], x + SumReal(spacing[..i]), y, Center)
  {
    var n := Wordcut.Min(|text|, |spacing| + 1);
    var ps := ResolvePages(pages, total);
    var each := FieldPage(text, spacing, x, y);
    FieldPageSizes(text, spacing, x, y, ps);
    assert FieldFormCalls(text, spacing, pages, total, x, y) == OnPages(ps, each);
    OnPagesAt(ps, each, n, j, i, idx);
    assert each(ps[j]) == FieldCalls(text, spacing, ps[j], x, y);
  }

  // ---------------------------------------------------------------------
  // Tables
  // ---------------------------------------------------------------------

  /** A table column: the row field it shows, its offset, and its wrap budget. */
  datatype Column = Column(field: string, x: real, wordWrap: Option<nat>, align: Align)

  /** A row's text for `field`: the rendered value, or "" when absent. */
  function CellText(row: Json, field: string, serialize: Json -> string): string
  {
    match Get(row, field)
    case None => ""
    case Some(v) => ValueToString(v, serialize)
  }

  /** How many lines a wrapping column's cell takes. */
  function CellLines(row: Json, col: Column, env: Env): nat
    requires col.wordWrap.Some?
  {
    |env.wrap(CellText(row, col.field, env.serialize), col.wordWrap.value)|
  }

  /** The running maximum of the first pass over the columns. */
  function MaxFrom(acc: nat, row: Json, cols: seq<Column>, env: Env): (r: nat)
    ensures r >= acc
    ensures forall c | 0 <= c < |cols| && cols[c].wordWrap.Some? :: r >= CellLines(row, cols[c], env)
    ensures r == acc || exists c | 0 <= c < |cols| && cols[c].wordWrap.Some? :: r == CellLines(row, cols[c], env)
    decreases |cols|
  {
    if cols == [] then acc
    else
      var next := if cols[0].wordWrap.Some? && CellLines(row, cols[0], env) > acc
                  then CellLines(row, cols[0], env) else acc;
      var r := MaxFrom(next, row, cols[1..], env);
      assert forall c | 1 <= c < |cols| :: cols[1..][c - 1] == cols[c];
      r
  }

  /**
   * The lines a row takes: at least one, at least as many as any wrapping
   * cell needs, and exactly as many as some wrapping cell needs when more
   * than one.
   */
  function RowLines(row: Json, cols: seq<Column>, env: Env): (r: nat)
    ensures r >= 1
    ensures forall c | 0 <= c < |cols| && cols[c].wordWrap.Some? :: r >= CellLines(row, cols[c], env)
    ensures r == 1 || exists c | 0 <= c < |cols| && cols[c].wordWrap.Some? :: r == CellLines(row, cols[c], env)
  {
    MaxFrom(1, row, cols, env)
  }

  /** Lines taken by all of `rows` together. */
  function LinesAbove(rows: seq<Json>, cols: seq<Column>, env: Env): nat
  {
    if rows == [] then 0
    else LinesAbove(rows[..|rows| - 1], cols, env) + RowLines(rows[|rows| - 1], cols, env)
  }

  /** One row: every column's cell at the row's `y`, left to right. */
  function RowCalls(row: Json, cols: seq<Column>, page: nat, x: real, y: real, serialize: Json -> string): (r: seq<TextCall>)
    ensures |r| == |cols|
    ensures forall c | 0 <= c < |cols| ::
      r[c] == TextCall(CellText(row, cols[c].field, serialize), page, x + cols[c].x, y, cols[c].align)
  {
    seq(|cols|, c requires 0 <= c < |cols| =>
      TextCall(CellText(row, cols[c].field, serialize), page, x + cols[c].x, y, cols[c].align))
  }

  /** Where row `j` is drawn: below the lines of the rows above it. */
  function RowY(rows: seq<Json>, j: nat, cols: seq<Column>, y0: real, rowHeight: real,
                env: Env): real
    requires j <= |rows|
  {
    y0 + Scale(rowHeight, LinesAbove(rows[..j], cols, env))
  }

  /** The next row starts the row height times this row's line count lower. */
  lemma RowYStep(rows: seq<Json>, i: nat, cols: seq<Column>, y0: real, rowHeight: real,
                 env: Env)
    requires i < |rows|
    ensures RowY(rows, i + 1, cols, y0, rowHeight, env) ==
      RowY(rows, i, cols, y0, rowHeight, env) + Scale(rowHeight, RowLines(rows[i], cols, env))
  {
    RowAdvance(rows, i, cols, env);
    var above := LinesAbove(rows[..i], cols, env);
    var lines := RowLines(rows[i], cols, env);
    ScaleAdd(rowHeight, above, lines);
    assert RowY(rows, i + 1, cols, y0, rowHeight, env) == y0 + Scale(rowHeight, above + lines);
  }

  /** The rows from `i` on, each at its `RowY`. */
  function RowsFrom(rows: seq<Json>, i: nat, cols: seq<Column>, page: nat, x: real, y0: real, rowHeight: real,
                    env: Env): (r: seq<seq<TextCall>>)
    requires i <= |rows|
    ensures |r| == |rows| - i
    ensures forall t | 0 <= t < |r| ::
      r[t] == RowCalls(rows[i + t], cols, page, x, RowY(rows, i + t, cols, y0, rowHeight, env), env.serialize)
  {
    seq(|rows| - i, t requires 0 <= t < |rows| - i =>
      RowCalls(rows[i + t], cols, page, x, RowY(rows, i + t, cols, y0, rowHeight, env), env.serialize))
  }

  /**
   * The row loop from row `i` at `y`: draw the row, then move down by the
   * row height times the row's line count. `y0` is where the table starts.
   * Accumulating the moves puts every row at its `RowY`.
   */
  function TableLoop(rows: seq<Json>, i: nat, cols: seq<Column>, page: nat, x: real, y0: real, y: real,
                     rowHeight: real, env: Env): (r: seq<TextCall>)
    requires i <= |rows|
    requires y == RowY(rows, i, cols, y0, rowHeight, env)
    ensures r == Concat(RowsFrom(rows, i, cols, page, x, y0, rowHeight, env))
    ensures OnPage(r, page)
    decreases |rows| - i
  {
    if i == |rows| then []
    else
      var lines := RowLines(rows[i], cols, env);
      var here := RowCalls(rows[i], cols, page, x, y, env.serialize);
      RowYStep(rows, i, cols, y0, rowHeight, env);
      var rest := TableLoop(rows, i + 1, cols, page, x, y0, y + Scale(rowHeight, lines), rowHeight, env);
      RowsFromStep(rows, i, cols, page, x, y0, rowHeight, env);
      OnPageAppend(here, rest, page);
      here + rest
  }

  /** The rows from `i` on are row `i`, then the rows from `i + 1` on. */
  lemma RowsFromStep(rows: seq<Json>, i: nat, cols: seq<Column>, page: nat, x: real, y0: real, rowHeight: real,
                     env: Env)
    requires i < |rows|
    ensures Concat(RowsFrom(rows, i, cols, page, x, y0, rowHeight, env)) ==
      RowCalls(rows[i], cols, page, x, RowY(rows, i, cols, y0, rowHeight, env), env.serialize)
      + Concat(RowsFrom(rows, i + 1, cols, page, x, y0, rowHeight, env))
  {
    assert RowsFrom(rows, i, cols, page, x, y0, rowHeight, env)[1..] ==
      RowsFrom(rows, i + 1, cols, page, x, y0, rowHeight, env);
  }

  lemma OnPageAppend(a: seq<TextCall>, b: seq<TextCall>, page: nat)
    requires OnPage(a, page) && OnPage(b, page)
    ensures OnPage(a + b, page)
  {
    forall k | 0 <= k < |a + b| ensures (a + b)[k].page == page {
      if k >= |a| { assert (a + b)[k] == b[k - |a|]; }
    }
  }

  /** The rows a table binding names: the elements of the array it resolves to. */
  function TableRows(bind: Option<string>, data: Json): seq<Json>
  {
    match bind
    case None => []
    case Some(b) =>
      match ResolveBinding(b, data)
      case Some(JArray(items)) => items
      case _ => []
  }

  /** The table drawn on one page, starting at `y`. */
  function TableOnPage(rows: seq<Json>, cols: seq<Column>, page: nat, x: real, y: real, rowHeight: real,
                       env: Env): seq<TextCall>
  {
    assert rows[..0] == [];
    TableLoop(rows, 0, cols, page, x, y, y, rowHeight, env)
  }

  /** One page of a table, for each page number. */
  function TablePage(rows: seq<Json>, cols: seq<Column>, x: real, y: real, rowHeight: real,
                     env: Env): nat -> seq<TextCall>
  {
    (p: nat) => TableOnPage(rows, cols, p, x, y, rowHeight, env)
  }

  /** The calls of a table; a table without rows draws nothing. */
  function TableCalls(rows: seq<Json>, cols: seq<Column>, pages: Option<seq<nat>>, total: nat, x: real, y: real,
                      rowHeight: real, env: Env): seq<TextCall>
  {
    if rows == [] then []
    else
      OnPages(ResolvePages(pages, total), TablePage(rows, cols, x, y, rowHeight, env))
  }

  /** Moving down past row `j` adds that row's line count, which is at least one. */
  lemma RowAdvance(rows: seq<Json>, j: nat, cols: seq<Column>, env: Env)
    requires j < |rows|
    ensures LinesAbove(rows[..j + 1], cols, env) ==
      LinesAbove(rows[..j], cols, env) + RowLines(rows[j], cols, env)
    ensures LinesAbove(rows[..j + 1], cols, env) > LinesAbove(rows[..j], cols, env)
  {
    assert rows[..j + 1][..j] == rows[..j];
  }

  /** On one page, column `c` of row `j` is at the column's offset and the row's `RowY`. */
  lemma TableCellAt(rows: seq<Json>, cols: seq<Column>, page: nat, x: real, y: real, rowHeight: real,
                    env: Env, j: nat, c: nat, idx: nat)
    requires j < |rows| && c < |cols| && idx == j * |cols| + c
    ensures var r := TableOnPage(rows, cols, page, x, y, rowHeight, env);
      && idx < |r|
      && r[idx] ==
           TextCall(CellText(rows[j], cols[c].field, env.serialize), page, x + cols[c].x,
                    RowY(rows, j, cols, y, rowHeight, env), cols[c].align)
  {
    assert rows[..0] == [];
    var rs := RowsFrom(rows, 0, cols, page, x, y, rowHeight, env);
    ConcatUniform(rs, |cols|, j, c);
  }

  /** Every page's table has a call for each cell. */
  lemma TablePageSize(rows: seq<Json>, cols: seq<Column>, page: nat, x: real, y: real, rowHeight: real,
                      env: Env)
    ensures |TableOnPage(rows, cols, page, x, y, rowHeight, env)| == |rows| * |cols|
  {
    assert rows[..0] == [];
    LengthSumUniform(RowsFrom(rows, 0, cols, page, x, y, rowHeight, env), |cols|);
  }

  /**
   * A table is drawn page after page: with `n` cells, call `k` of the
   * `p`-th page is call `k` of that page's table.
   */
  lemma TableLayout(rows: seq<Json>, cols: seq<Column>, pages: Option<seq<nat>>, total: nat, x: real, y: real,
                    rowHeight: real, env: Env,
                    n: nat, p: nat, k: nat, idx: nat)
    requires rows != [] && n == |rows| * |cols|
    requires p < |ResolvePages(pages, total)| && k < n && idx == p * n + k
    ensures var r := TableCalls(rows, cols, pages, total, x, y, rowHeight, env);
            var onPage := TableOnPage(rows, cols, ResolvePages(pages, total)[p], x, y, rowHeight, env);
      && idx < |r|
      && k < |onPage|
      && r[idx] == onPage[k]
  {
    var ps := ResolvePages(pages, total);
    var each := TablePage(rows, cols, x, y, rowHeight, env);
    forall i | 0 <= i < |ps| ensures |each(ps[i])| == n {
      TablePageSize(rows, cols, ps[i], x, y, rowHeight, env);
    }
    assert TableCalls(rows, cols, pages, total, x, y, rowHeight, env) == OnPages(ps, each);
    OnPagesAt(ps, each, n, p, k, idx);
  }

  // ---------------------------------------------------------------------
  // Drawing
  // ---------------------------------------------------------------------

  /**
   * Runs the calls in order with the corrected `insert_text`, whose font
   * name falls back to the family's variant when the written name finds no
   * data, stopping at the first error.
   */
  function PerformCorrected(d: Document.Doc, calls: seq<TextCall>): (r: Result<Document.Doc, PdfErrors.PdfError>)
    ensures calls == [] ==> r == Ok(d)
    ensures r.Ok? ==> r.value.pages == d.pages && r.value.currentFamily == d.currentFamily
    decreases |calls|
  {
    if calls == [] then Ok(d)
    else
      var c := calls[0];
      match Document.InsertText(d, c.text, c.page, c.x, c.y, c.align)
      case Err(e) => Err(e)
      case Ok(d1) => PerformCorrected(d1, calls[1..])
  }

  /**
   * Runs the calls in order with `insert_text` as the program calls it,
   * whose font name comes from `get_current_font_name`, stopping at the
   * first error (`?`).
   */
  function Perform(d: Document.Doc, calls: seq<TextCall>): (r: Result<Document.Doc, PdfErrors.PdfError>)
    ensures calls == [] ==> r == Ok(d)
    ensures r.Ok? ==> r.value.pages == d.pages && r.value.currentFamily == d.currentFamily
    decreases |calls|
  {
    if calls == [] then Ok(d)
    else
      var c := calls[0];
      match Document.InsertTextAsWritten(d, c.text, c.page, c.x, c.y, c.align)
      case Err(e) => Err(e)
      case Ok(d1) => Perform(d1, calls[1..])
  }

  /**
   * Running two lists of calls one after the other is running their
   * concatenation: the second list starts from the document the first left,
   * and an error in the first stops everything.
   */
  lemma {:induction false} PerformConcat(d: Document.Doc, a: seq<TextCall>, b: seq<TextCall>)
    ensures Perform(d, a + b) == (match Perform(d, a) case Err(e) => Err(e) case Ok(d1) => Perform(d1, b))
    decreases |a|
  {
    if a == [] {
      assert a + b == b;
    } else {
      assert (a + b)[0] == a[0];
      assert (a + b)[1..] == a[1..] + b;
      var c := a[0];
      match Document.InsertTextAsWritten(d, c.text, c.page, c.x, c.y, c.align)
      case Err(_) =>
      case Ok(d1) => PerformConcat(d1, a[1..], b);
    }
  }

  /**
   * Inserting text keeps the document valid and leaves its pages and the
   * selected family as they were.
   */
  lemma InsertTextKeeps(d: Document.Doc, text: string, page: nat, x: real, y: real, align: Align)
    requires Document.Valid(d)
    requires Document.InsertText(d, text, page, x, y, align).Ok?
    ensures var d1 := Document.InsertText(d, text, page, x, y, align).value;
      Document.Valid(d1) && d1.pages == d.pages && d1.currentFamily == d.currentFamily
  {
  }

  /** Every page drawn on exists and has a readable height. */
  predicate Drawable(d: Document.Doc, calls: seq<TextCall>)
  {
    forall k | 0 <= k < |calls| ::
      1 <= calls[k].page <= |d.pages| && Document.PageHeight(d, calls[k].page).Ok?
  }

  /**
   * With the corrected lookup, on a valid document with a family selected,
   * a draw list whose pages exist and have readable heights is drawn
   * without error.
   */
  lemma {:induction false} PerformCorrectedSucceeds(d: Document.Doc, calls: seq<TextCall>)
    requires Document.Valid(d) && d.currentFamily.Some?
    requires Drawable(d, calls)
    ensures PerformCorrected(d, calls).Ok?
    decreases |calls|
  {
    if calls != [] {
      var c := calls[0];
      Document.InsertTextSucceeds(d, c.text, c.page, c.x, c.y, c.align);
      InsertTextKeeps(d, c.text, c.page, c.x, c.y, c.align);
      var d1 := Document.InsertText(d, c.text, c.page, c.x, c.y, c.align).value;
      assert Drawable(d1, calls[1..]) by {
        forall k | 0 <= k < |calls| - 1
          ensures 1 <= calls[1..][k].page <= |d1.pages| && Document.PageHeight(d1, calls[1..][k].page).Ok?
        {
          assert calls[1..][k] == calls[k + 1];
        }
      }
      PerformCorrectedSucceeds(d1, calls[1..]);
    }
  }

  /**
   * With the corrected lookup, a text block drawn on all pages of a valid
   * document with a family selected, whose pages all have readable
   * heights, draws without error.
   */
  lemma TextBlockDrawsCorrected(d: Document.Doc, text: string, wrap: Option<WordWrap>, env: Env,
                       x: real, y: real, align: Align)
    requires Document.Valid(d) && d.currentFamily.Some?
    requires forall p | 1 <= p <= |d.pages| :: Document.PageHeight(d, p).Ok?
    ensures PerformCorrected(d, TextBlockCalls(text, wrap, env, None, |d.pages|, x, y, align)).Ok?
  {
    var calls := TextBlockCalls(text, wrap, env, None, |d.pages|, x, y, align);
    if text != [] {
      var lines := BlockLines(text, wrap, env);
      var each := TextPage(lines, x, y, LineHeight(wrap), align);
      OnPagesPages(ResolvePages(None, |d.pages|), each);
      DefaultPagesExist(None, |d.pages|);
    }
    PerformCorrectedSucceeds(d, calls);
  }

  /**
   * Inserting text as written keeps the document valid and leaves its
   * pages, cursor and font names as they were; data that had a name still
   * has it.
   */
  lemma InsertTextAsWrittenKeeps(d: Document.Doc, text: string, page: nat, x: real, y: real, align: Align,
                                 name: string)
    requires Document.Valid(d)
    requires Document.InsertTextAsWritten(d, text, page, x, y, align).Ok?
    requires Document.FontDataNamed(d.table, name).Ok?
    ensures var d1 := Document.InsertTextAsWritten(d, text, page, x, y, align).value;
      && Document.Valid(d1) && d1.pages == d.pages
      && Document.GetCurrentFontName(d1) == Document.GetCurrentFontName(d)
      && Document.FontDataNamed(d1.table, name).Ok?
  {
  }

  /**
   * A draw list whose pages exist and have readable heights is drawn
   * without error on a valid document once the name
   * `get_current_font_name` gives is the name of some font data.
   */
  lemma {:induction false} PerformSucceeds(d: Document.Doc, calls: seq<TextCall>)
    requires Document.Valid(d) && d.currentFamily.Some?
    requires Drawable(d, calls)
    requires Document.FontDataNamed(d.table, Document.GetCurrentFontName(d).value).Ok?
    ensures Perform(d, calls).Ok?
    decreases |calls|
  {
    if calls != [] {
      var c := calls[0];
      var name := Document.GetCurrentFontName(d).value;
      Document.InsertTextAsWrittenSucceeds(d, c.text, c.page, c.x, c.y, c.align);
      InsertTextAsWrittenKeeps(d, c.text, c.page, c.x, c.y, c.align, name);
      var d1 := Document.InsertTextAsWritten(d, c.text, c.page, c.x, c.y, c.align).value;
      assert Drawable(d1, calls[1..]) by {
        forall k | 0 <= k < |calls| - 1
          ensures 1 <= calls[1..][k].page <= |d1.pages| && Document.PageHeight(d1, calls[1..][k].page).Ok?
        {
          assert calls[1..][k] == calls[k + 1];
        }
      }
      PerformSucceeds(d1, calls[1..]);
    }
  }

  /**
   * A text block on all pages of a valid document whose pages have
   * readable heights draws without error when the current font name finds
   * its data.
   */
  lemma TextBlockDraws(d: Document.Doc, text: string, wrap: Option<WordWrap>, env: Env,
                                x: real, y: real, align: Align)
    requires Document.Valid(d) && d.currentFamily.Some?
    requires forall p | 1 <= p <= |d.pages| :: Document.PageHeight(d, p).Ok?
    requires Document.FontDataNamed(d.table, Document.GetCurrentFontName(d).value).Ok?
    ensures Perform(d, TextBlockCalls(text, wrap, env, None, |d.pages|, x, y, align)).Ok?
  {
    var calls := TextBlockCalls(text, wrap, env, None, |d.pages|, x, y, align);
    if text != [] {
      var lines := BlockLines(text, wrap, env);
      var each := TextPage(lines, x, y, LineHeight(wrap), align);
      OnPagesPages(ResolvePages(None, |d.pages|), each);
      DefaultPagesExist(None, |d.pages|);
    }
    PerformSucceeds(d, calls);
  }

  /**
   * Whenever the name `get_current_font_name` gives finds its data, the
   * corrected drawing does exactly what the program does.
   */
  lemma {:induction false} PerformAgrees(d: Document.Doc, calls: seq<TextCall>)
    requires Document.Valid(d) && d.currentFamily.Some?
    requires Document.FontDataNamed(d.table, Document.GetCurrentFontName(d).value).Ok?
    ensures PerformCorrected(d, calls) == Perform(d, calls)
    decreases |calls|
  {
    if calls != [] {
      var c := calls[0];
      var name := Document.GetCurrentFontName(d).value;
      assert Document.CurrentFontName(d) == Document.GetCurrentFontName(d);
      var r := Document.InsertTextAsWritten(d, c.text, c.page, c.x, c.y, c.align);
      assert Document.InsertText(d, c.text, c.page, c.x, c.y, c.align) == r;
      if r.Ok? {
        InsertTextAsWrittenKeeps(d, c.text, c.page, c.x, c.y, c.align, name);
        PerformAgrees(r.value, calls[1..]);
      }
    }
  }

  /**
   * A bold block on a font loaded with `add_font` and no bold file: the
   * program looks up "s-bold", which no data carries, and fails, while
   * resolving through the family draws with the regular data.
   */
  lemma BoldBlockFails()
    ensures var d0 := Document.Open([Document.Page(None, [])]);
      && Document.AddFont(d0, "s", [], Document.EmptyFace).Ok?
      && var d1 := Document.AddFont(d0, "s", [], Document.EmptyFace).value;
      && Document.SetFont(d1, "s", 12.0).Ok?
      && var d2 := Document.SetFont(d1, "s", 12.0).value;
      && Document.SetFontWeight(d2, Fonts.Bold).Ok?
      && var d3 := Document.SetFontWeight(d2, Fonts.Bold).value;
      && Perform(d3, [TextCall("A", 1, 0.0, 0.0, Left)]) == Err(PdfErrors.FontNotFound("s-bold"))
      && PerformCorrected(d3, [TextCall("A", 1, 0.0, 0.0, Left)]).Ok?
  {
    var d0 := Document.Open([Document.Page(None, [])]);
    var d1 := Document.AddFont(d0, "s", [], Document.EmptyFace).value;
    var d2 := Document.SetFont(d1, "s", 12.0).value;
    var d3 := Document.SetFontWeight(d2, Fonts.Bold).value;
    BoldTable(d0, d1);
    BoldDraw(d3, [TextCall("A", 1, 0.0, 0.0, Left)]);
  }

  /** The table `add_font` builds for "s" on a fresh document. */
  lemma BoldTable(d0: Document.Doc, d1: Document.Doc)
    requires d0 == Document.Open([Document.Page(None, [])])
    requires Document.AddFont(d0, "s", [], Document.EmptyFace).Ok?
    requires d1 == Document.AddFont(d0, "s", [], Document.EmptyFace).value
    ensures d1.table.order == ["s"] && d1.table.fonts.Keys == {"s"} && d1.table.families.Keys == {"s"}
    ensures d1.table.families["s"] == Fonts.FontFamily(Some(d1.table.fonts["s"]), None, None, None)
    ensures d1.table.fonts["s"].name == "s"
    ensures Document.Valid(d1) && d1.pages == d0.pages && d1.fallbacks == d0.fallbacks
  {
  }

  /** The single bold call: the as-written name misses, the corrected one draws. */
  lemma BoldDraw(d: Document.Doc, calls: seq<TextCall>)
    requires calls == [TextCall("A", 1, 0.0, 0.0, Left)]
    requires d.currentFamily == Some("s") && d.weight == Fonts.Bold && d.style == Fonts.Normal
    requires d.table.order == ["s"] && d.table.fonts.Keys == {"s"} && d.table.families.Keys == {"s"}
    requires d.table.families["s"] == Fonts.FontFamily(Some(d.table.fonts["s"]), None, None, None)
    requires d.table.fonts["s"].name == "s"
    requires Document.Valid(d) && d.pages == [Document.Page(None, [])] && d.fallbacks == map[]
    ensures Perform(d, calls) == Err(PdfErrors.FontNotFound("s-bold"))
    ensures PerformCorrected(d, calls).Ok?
  {
    BoldAsWritten(d, calls);
    Document.DefaultHeights(d.pages[0]);
    PerformCorrectedSucceeds(d, calls);
  }

  lemma BoldAsWritten(d: Document.Doc, calls: seq<TextCall>)
    requires calls == [TextCall("A", 1, 0.0, 0.0, Left)]
    requires d.currentFamily == Some("s") && d.weight == Fonts.Bold && d.style == Fonts.Normal
    requires d.table.order == ["s"] && d.table.fonts.Keys == {"s"} && d.table.families.Keys == {"s"}
    requires d.table.families["s"] == Fonts.FontFamily(Some(d.table.fonts["s"]), None, None, None)
    requires d.table.fonts["s"].name == "s"
    requires |d.pages| == 1 && d.fallbacks == map[]
    ensures Perform(d, calls) == Err(PdfErrors.FontNotFound("s-bold"))
  {
    BoldNameMissing(d);
    Document.InsertTextAsWrittenMisses(d, "A", 1, 0.0, 0.0, Left);
  }

  /** In a table holding only the font "s", the bold variant name "s-bold" finds no data. */
  lemma BoldNameMissing(d: Document.Doc)
    requires d.currentFamily == Some("s") && d.weight == Fonts.Bold && d.style == Fonts.Normal
    requires d.table.order == ["s"] && d.table.fonts.Keys == {"s"} && d.table.families.Keys == {"s"}
    requires d.table.families["s"] == Fonts.FontFamily(Some(d.table.fonts["s"]), None, None, None)
    requires d.table.fonts["s"].name == "s"
    ensures Document.GetCurrentFontName(d) == Ok("s-bold")
    ensures Document.FontDataNamed(d.table, "s-bold").Err?
  {
    assert "s" in d.table.families;
    assert "s" + "-bold" == "s-bold";
    assert "s-bold" != "s" by { assert |"s-bold"| == 6; }
    assert !Document.FamilyHas(d.table, 0, "s-bold");
  }
}
