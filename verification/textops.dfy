/**
 * Text placement in PDF content streams: the alignment offset, the text
 * operator block (BT … ET), and the space-based word wrap of the PDF core.
 */
module TextOps {
  import opened Strs
  import opened Greedy

  datatype Align = Left | Center | Right

  /** An RGB colour, each component nominally in 0.0..=1.0. */
  datatype Color = Color(r: real, g: real, b: real)

  /** Font resource name, size, measured width and colour of one text run. */
  datatype TextContext = TextContext(fontName: string, fontSize: real, textWidth: real, color: Color)

  /**
   * Where text of width `textWidth` starts inside a container of width
   * `containerWidth`: flush left, centred with equal margins, or flush right.
   */
  function CalculateXOffset(textWidth: real, containerWidth: real, align: Align): (off: real)
    ensures align == Left ==> off == 0.0
    ensures align == Center ==> off == containerWidth - (off + textWidth)
    ensures align == Right ==> off + textWidth == containerWidth
  {
    match align
    case Left => 0.0
    case Center => (containerWidth - textWidth) / 2.0
    case Right => containerWidth - textWidth
  }

  /**
   * The `Td` x coordinate for text anchored at `x`: `x` is the text's left
   * edge, its midpoint or its right edge.
   */
  function StartX(x: real, width: real, align: Align): (sx: real)
    ensures align == Left ==> sx == x
    ensures align == Center ==> sx + width / 2.0 == x
    ensures align == Right ==> sx + width == x
  {
    match align
    case Left => x
    case Center => x + -width / 2.0
    case Right => x + -width
  }

  /** The anchor offset is the container offset for a container of width 0. */
  lemma StartXIsOffset(x: real, width: real, align: Align)
    ensures StartX(x, width, align) == x + CalculateXOffset(width, 0.0, align)
  {
  }

  /**
   * The six operator lines: begin text, fill colour, font, position, show
   * the hex string, end text. `num` stands for Rust's `Display` of a float.
   */
  function OperatorLines(textHex: string, x: real, y: real, align: Align, ctx: TextContext,
                         num: real -> string): (ls: seq<string>)
    ensures |ls| == 6 && ls[0] == "BT" && ls[5] == "ET"
  {
    var c := ctx.color;
    [ "BT",
      num(c.r) + " " + num(c.g) + " " + num(c.b) + " rg",
      "/" + ctx.fontName + " " + num(ctx.fontSize) + " Tf",
      num(StartX(x, ctx.textWidth, align)) + " " + num(y) + " Td",
      textHex + " Tj",
      "ET" ]
  }

  /** Each operator line followed by a newline. */
  function GenerateTextOperators(textHex: string, x: real, y: real, align: Align, ctx: TextContext,
                                 num: real -> string): (ops: string)
    ensures |ops| >= 6 && ops[..3] == "BT\n" && ops[|ops| - 3..] == "ET\n"
  {
    var ls := OperatorLines(textHex, x, y, align, ctx, num);
    JoinLast(ls, "\n");
    var ops := Join(ls + [""], "\n");
    assert ops == "BT" + "\n" + Join((ls + [""])[1..], "\n");
    assert ops == Join(ls, "\n") + "\n" + "";
    ops
  }

  lemma JoinLast(ls: seq<string>, sep: string)
    requires |ls| > 0
    ensures Join(ls + [""], sep) == Join(ls, sep) + sep
    ensures |Join(ls, sep)| >= |ls[|ls| - 1]|
    ensures Join(ls, sep)[|Join(ls, sep)| - |ls[|ls| - 1]|..] == ls[|ls| - 1]
  {
    JoinSnoc(ls, "", sep);
    if |ls| > 1 {
      JoinLast(ls[1..], sep);
    }
  }

  /**
   * Read back line by line, the operator block is exactly the six lines:
   * the position line carries the anchored x and the unchanged y, and the
   * hex string is shown verbatim.
   */
  lemma TextOperatorsLines(textHex: string, x: real, y: real, align: Align, ctx: TextContext,
                           num: real -> string)
    requires '\n' !in textHex && '\n' !in ctx.fontName
    requires forall v: real :: '\n' !in num(v)
    ensures var ls := Split(GenerateTextOperators(textHex, x, y, align, ctx, num), '\n');
      && |ls| == 7
      && ls[0] == "BT"
      && ls[1] == num(ctx.color.r) + " " + num(ctx.color.g) + " " + num(ctx.color.b) + " rg"
      && ls[2] == "/" + ctx.fontName + " " + num(ctx.fontSize) + " Tf"
      && ls[3] == num(StartX(x, ctx.textWidth, align)) + " " + num(y) + " Td"
      && ls[4] == textHex + " Tj"
      && ls[5] == "ET"
      && ls[6] == ""
  {
    var ls := OperatorLines(textHex, x, y, align, ctx, num) + [""];
    var c := ctx.color;
    assert '\n' !in num(c.r) && '\n' !in num(c.g) && '\n' !in num(c.b);
    assert '\n' !in num(ctx.fontSize);
    assert '\n' !in num(StartX(x, ctx.textWidth, align)) && '\n' !in num(y);
    forall i | 0 <= i < |ls| ensures '\n' !in ls[i] {
    }
    SplitJoin(ls, '\n');
  }

  // ---------------------------------------------------------------------
  // Space-based word wrap
  // ---------------------------------------------------------------------

  /**
   * The `simple_word_wrap` test: a word joins the current line when the
   * line's UTF-8 byte length, one space and the word's byte length stay
   * within the budget. The budget is named in characters but counted in
   * bytes.
   */
  function ByteBudget(maxChars: nat): (seq<string>, string) -> bool
  {
    (cur: seq<string>, w: string) => ByteLen(Join(cur, " ")) + 1 + ByteLen(w) <= maxChars
  }

  /** The words of `text`, grouped into lines. */
  function WordGroups(text: string, maxChars: nat): (gs: seq<seq<string>>)
    ensures IsGreedy(gs, ByteBudget(maxChars))
    ensures Concat(gs) == SplitWhitespace(text)
    ensures SplitWhitespace(text) == [] <==> gs == []
  {
    Fill(SplitWhitespace(text), ByteBudget(maxChars))
  }

  function JoinWords(gs: seq<seq<string>>): (lines: seq<string>)
    ensures |lines| == |gs|
    ensures forall i | 0 <= i < |gs| :: lines[i] == Join(gs[i], " ")
  {
    if |gs| == 0 then [] else [Join(gs[0], " ")] + JoinWords(gs[1..])
  }

  /**
   * Wraps `text` on whitespace into lines whose words are separated by one
   * space. A budget of 0 returns the text unchanged; text without words
   * gives one empty line.
   */
  function SimpleWordWrap(text: string, maxChars: nat): (lines: seq<string>)
    ensures |lines| >= 1
    ensures maxChars == 0 ==> lines == [text]
    ensures maxChars > 0 && SplitWhitespace(text) == [] ==> lines == [""]
    ensures maxChars > 0 && SplitWhitespace(text) != [] ==>
      var gs := WordGroups(text, maxChars);
      && |lines| == |gs|
      && forall i | 0 <= i < |gs| :: lines[i] == Join(gs[i], " ")
  {
    if maxChars == 0 then [text]
    else
      var lines := JoinWords(WordGroups(text, maxChars));
      if lines == [] then [""] else lines
  }

  /** A line of two or more words stays within the byte budget. */
  lemma ChainedWithinBudget(g: seq<string>, maxChars: nat)
    requires Chained(g, ByteBudget(maxChars)) && |g| > 1
    ensures ByteLen(Join(g, " ")) <= maxChars
  {
    var n := |g| - 1;
    var pre := Join(g[..n], " ");
    assert ByteLen(pre) + 1 + ByteLen(g[n]) <= maxChars by {
      assert ByteBudget(maxChars)(g[..n], g[n]);
    }
    assert Join(g, " ") == pre + " " + g[n] by {
      JoinSnoc(g[..n], g[n], " ");
      assert g[..n] + [g[n]] == g;
    }
    ByteLenAppend(pre + " ", g[n]);
    ByteLenAppend(pre, " ");
    assert ByteLen(" ") == 1;
  }

  /**
   * The words of the lines, in order, are the words of the text; each line
   * fits the byte budget unless it holds a single word; and a line ends only
   * where the next word would overflow it.
   */
  lemma SimpleWordWrapWords(text: string, maxChars: nat)
    requires maxChars > 0 && SplitWhitespace(text) != []
    ensures var lines := SimpleWordWrap(text, maxChars);
            var gs := WordGroups(text, maxChars);
      && (forall i | 0 <= i < |lines| :: SplitWhitespace(lines[i]) == gs[i])
      && Concat(gs) == SplitWhitespace(text)
      && (forall i | 0 <= i < |lines| ::
            ByteLen(lines[i]) <= maxChars || |SplitWhitespace(lines[i])| == 1)
      && (forall i | 0 <= i < |lines| - 1 ::
            ByteLen(lines[i]) + 1 + ByteLen(gs[i + 1][0]) > maxChars)
  {
    var lines := SimpleWordWrap(text, maxChars);
    var gs := WordGroups(text, maxChars);
    forall i | 0 <= i < |lines|
      ensures SplitWhitespace(lines[i]) == gs[i]
      ensures ByteLen(lines[i]) <= maxChars || |gs[i]| == 1
    {
      WordsOfLine(gs, i, text);
      SplitWhitespaceJoin(gs[i]);
      if |gs[i]| > 1 {
        ChainedWithinBudget(gs[i], maxChars);
      }
    }
    forall i | 0 <= i < |lines| - 1
      ensures ByteLen(lines[i]) + 1 + ByteLen(gs[i + 1][0]) > maxChars
    {
      assert !ByteBudget(maxChars)(gs[i], gs[i + 1][0]);
    }
  }

  /** The words of a line are words of the text: non-empty and whitespace-free. */
  lemma WordsOfLine(gs: seq<seq<string>>, i: nat, text: string)
    requires i < |gs| && Concat(gs) == SplitWhitespace(text)
    ensures forall k | 0 <= k < |gs[i]| :: |gs[i][k]| > 0 && NoWhitespace(gs[i][k])
  {
    forall k | 0 <= k < |gs[i]| ensures |gs[i][k]| > 0 && NoWhitespace(gs[i][k]) {
      ConcatAppend(gs[..i], gs[i..]);
      assert gs == gs[..i] + gs[i..];
      assert Concat(gs[i..]) == gs[i] + Concat(gs[i + 1..]) by {
        assert gs[i..][1..] == gs[i + 1..];
      }
      var j := LengthSum(gs[..i]) + k;
      assert SplitWhitespace(text)[j] == gs[i][k];
    }
  }
}
