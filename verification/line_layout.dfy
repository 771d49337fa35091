// Paragraph layout on top of the line breaker: spacing rules, indents in
// twips, per-line offsets and heights, and the document totals.
// Lengths are reals (the Rust code uses f32); the breaker itself is not part of
// this model, so its output lines are an input here.

module LineLayout {

  datatype LineSpacingRule = Single | OneAndHalf | Double | AtLeast | Exactly | Multiple

  datatype Alignment = Left | Right | Center | Justify

  /** Paragraph properties; indents and spaces are in twips (1/1440 inch). */
  datatype ParagraphProperties = ParagraphProperties(
    indentLeft: real,
    indentRight: real,
    indentFirstLine: real,
    spaceBefore: real,
    spaceAfter: real,
    lineSpacing: real,
    lineSpacingRule: LineSpacingRule,
    alignment: Alignment)

  const TwipsPerInch: real := 1440.0

  function DefaultProperties(): (p: ParagraphProperties)
    ensures p.indentLeft == 0.0 && p.indentRight == 0.0 && p.indentFirstLine == 0.0
    ensures p.spaceBefore == 0.0 && p.spaceAfter == 0.0
    ensures p.lineSpacing == 1.0 && p.lineSpacingRule == Single && p.alignment == Left
  {
    ParagraphProperties(0.0, 0.0, 0.0, 0.0, 0.0, 1.0, Single, Left)
  }

  /** The three indents are set; everything else is the default. */
  function WithIndent(left: real, right: real, firstLine: real): (p: ParagraphProperties)
    ensures p.indentLeft == left && p.indentRight == right && p.indentFirstLine == firstLine
    ensures p.(indentLeft := 0.0, indentRight := 0.0, indentFirstLine := 0.0) == DefaultProperties()
  {
    DefaultProperties().(indentLeft := left, indentRight := right, indentFirstLine := firstLine)
  }

  function WithAlignment(alignment: Alignment): (p: ParagraphProperties)
    ensures p.alignment == alignment
    ensures p.(alignment := Left) == DefaultProperties()
  {
    DefaultProperties().(alignment := alignment)
  }

  function WithLineSpacing(rule: LineSpacingRule, value: real): (p: ParagraphProperties)
    ensures p.lineSpacingRule == rule && p.lineSpacing == value
    ensures p.(lineSpacingRule := Single, lineSpacing := 1.0) == DefaultProperties()
  {
    DefaultProperties().(lineSpacingRule := rule, lineSpacing := value)
  }

  function NewProperties(left: real, right: real, firstLine: real, before: real, after: real,
                         spacing: real, rule: LineSpacingRule, alignment: Alignment): (p: ParagraphProperties)
    ensures p.indentLeft == left && p.indentRight == right && p.indentFirstLine == firstLine
    ensures p.spaceBefore == before && p.spaceAfter == after
    ensures p.lineSpacing == spacing && p.lineSpacingRule == rule && p.alignment == alignment
  {
    ParagraphProperties(left, right, firstLine, before, after, spacing, rule, alignment)
  }

  /** The "new" constructor with default arguments gives the defaults. */
  lemma NewPropertiesDefault()
    ensures NewProperties(0.0, 0.0, 0.0, 0.0, 0.0, 1.0, Single, Left) == DefaultProperties()
  {
  }

  datatype LayoutConfig = LayoutConfig(
    lineHeight: real,
    tabSize: nat,
    fontSize: real,
    bidiEnabled: bool,
    trimTrailing: bool)

  const DefaultConfig: LayoutConfig := LayoutConfig(1.2, 4, 14.0, true, true)

  /** Line height before any spacing rule: the line-height factor times the font size. */
  function BaseLineHeight(c: LayoutConfig): (h: real)
    ensures c.lineHeight == 1.0 ==> h == c.fontSize
  {
    c.lineHeight * c.fontSize
  }

  function Max(a: real, b: real): (m: real)
    ensures m >= a && m >= b && (m == a || m == b)
  {
    if a >= b then a else b
  }

  /** The height of one line under the paragraph's spacing rule. */
  function LineHeight(base: real, p: ParagraphProperties): (h: real)
    ensures p.lineSpacingRule == Exactly ==> h == p.lineSpacing
    ensures p.lineSpacingRule == AtLeast ==> h >= base && h >= p.lineSpacing && (h == base || h == p.lineSpacing)
  {
    match p.lineSpacingRule
    case Single => base * 1.0
    case OneAndHalf => base * 1.5
    case Double => base * 2.0
    case Exactly => p.lineSpacing
    case AtLeast => Max(base, p.lineSpacing)
    case Multiple => base * p.lineSpacing
  }

  /** The fixed rules are the "multiple" rule at factors 1, 1.5 and 2. */
  lemma FixedRulesAreMultiples(base: real, p: ParagraphProperties)
    ensures LineHeight(base, p.(lineSpacingRule := Single)) == LineHeight(base, p.(lineSpacingRule := Multiple, lineSpacing := 1.0))
    ensures LineHeight(base, p.(lineSpacingRule := OneAndHalf)) == LineHeight(base, p.(lineSpacingRule := Multiple, lineSpacing := 1.5))
    ensures LineHeight(base, p.(lineSpacingRule := Double)) == LineHeight(base, p.(lineSpacingRule := Multiple, lineSpacing := 2.0))
  {
  }

  /** Every rule except "exactly" gives a taller line for a taller base
      (with a non-negative spacing value); "exactly" ignores the base. */
  lemma LineHeightMonotone(b1: real, b2: real, p: ParagraphProperties)
    requires b1 <= b2 && p.lineSpacing >= 0.0
    ensures LineHeight(b1, p) <= LineHeight(b2, p)
    ensures p.lineSpacingRule == Exactly ==> LineHeight(b1, p) == LineHeight(b2, p)
  {
    match p.lineSpacingRule
    case Single =>
    case OneAndHalf =>
      ScaleMonotone(b1, b2, 1.5);
    case Double =>
      ScaleMonotone(b1, b2, 2.0);
    case Exactly =>
    case AtLeast =>
    case Multiple =>
      MultipleMonotone(b1, b2, p);
  }

  lemma MultipleMonotone(b1: real, b2: real, p: ParagraphProperties)
    requires b1 <= b2 && p.lineSpacing >= 0.0 && p.lineSpacingRule == Multiple
    ensures LineHeight(b1, p) <= LineHeight(b2, p)
  {
    ScaleMonotone(b1, b2, p.lineSpacing);
  }

  /** Scaling by a non-negative factor keeps the order. */
  lemma ScaleMonotone(b1: real, b2: real, k: real)
    requires b1 <= b2 && k >= 0.0
    ensures b1 * k <= b2 * k
  {
    assert b2 * k - b1 * k == (b2 - b1) * k;
  }

  /** Line heights for the spacing examples of the Rust unit tests. */
  lemma LineHeightExamples(base: real)
    ensures LineHeight(base, WithLineSpacing(Single, 1.0)) == base
    ensures LineHeight(base, WithLineSpacing(Double, 2.0)) == base * 2.0
    ensures LineHeight(base, WithLineSpacing(Exactly, 30.0)) == 30.0
    ensures LineHeight(base, WithLineSpacing(Multiple, 1.5)) == base * 1.5
    ensures LineHeight(base, WithLineSpacing(AtLeast, 40.0)) >= 40.0
  {
  }

  /** Left offset of a line in twips: the first line also gets the
      first-line indent (negative for a hanging indent). */
  function LineOffset(lineIndex: nat, p: ParagraphProperties): (x: real)
    ensures lineIndex > 0 ==> x == p.indentLeft
  {
    if lineIndex == 0 then p.indentLeft + p.indentFirstLine else p.indentLeft
  }

  /** The first line and any later line differ by exactly the first-line indent. */
  lemma FirstLineIndentOnlyOnFirstLine(k: nat, p: ParagraphProperties)
    requires k > 0
    ensures LineOffset(0, p) - LineOffset(k, p) == p.indentFirstLine
    ensures p.indentFirstLine < 0.0 <==> LineOffset(0, p) < LineOffset(k, p)
  {
  }

  /** Conversion from twips to layout units, relative to the line width. */
  function TwipsToUnits(twips: real, maxWidth: real): real
  {
    twips * (maxWidth / TwipsPerInch)
  }

  /** Width left for text after both indents, converted to units. */
  function ContentWidth(maxWidth: real, p: ParagraphProperties): real
  {
    maxWidth - TwipsToUnits(p.indentLeft, maxWidth) - TwipsToUnits(p.indentRight, maxWidth)
  }

  /** The content width is the fraction of the line that the indents leave,
      one inch of indent (1440 twips) taking the whole width. */
  lemma ContentWidthFraction(maxWidth: real, p: ParagraphProperties)
    ensures ContentWidth(maxWidth, p) == maxWidth * (TwipsPerInch - p.indentLeft - p.indentRight) / TwipsPerInch
    ensures p.indentLeft == 0.0 && p.indentRight == 0.0 ==> ContentWidth(maxWidth, p) == maxWidth
    ensures maxWidth >= 0.0 && p.indentLeft >= 0.0 && p.indentRight >= 0.0 ==> ContentWidth(maxWidth, p) <= maxWidth
  {
    var t := maxWidth / TwipsPerInch;
    assert maxWidth == t * TwipsPerInch;
    assert ContentWidth(maxWidth, p) == t * (TwipsPerInch - p.indentLeft - p.indentRight);
    if maxWidth >= 0.0 && p.indentLeft >= 0.0 && p.indentRight >= 0.0 {
      assert t >= 0.0;
      assert t * p.indentLeft >= 0.0 && t * p.indentRight >= 0.0;
    }
  }

  /** A 1440-unit line with indents 720 and 360 twips has 360 units of content. */
  lemma ContentWidthExample()
    ensures ContentWidth(1440.0, WithIndent(720.0, 360.0, 0.0)) == 360.0
  {
  }

  /** Height of a paragraph of lineCount lines: the lines plus the space
      before and after, converted to units. */
  function TotalHeight(lineCount: nat, lineHeight: real, maxWidth: real, p: ParagraphProperties): (h: real)
    ensures lineCount == 0 ==> h == TwipsToUnits(p.spaceBefore, maxWidth) + TwipsToUnits(p.spaceAfter, maxWidth)
  {
    (lineCount as real) * lineHeight + TwipsToUnits(p.spaceBefore, maxWidth) + TwipsToUnits(p.spaceAfter, maxWidth)
  }

  /** Each further line adds one line height; the spacing is added once. */
  lemma TotalHeightPerLine(n: nat, lineHeight: real, maxWidth: real, p: ParagraphProperties)
    ensures TotalHeight(n + 1, lineHeight, maxWidth, p) == TotalHeight(n, lineHeight, maxWidth, p) + lineHeight
    ensures TotalHeight(n, lineHeight, maxWidth, p) - TotalHeight(0, lineHeight, maxWidth, p) == (n as real) * lineHeight
  {
  }

  /** With positive spacing, the paragraph is taller than its lines. */
  lemma SpaceBeforeAfterAdds(n: nat, lineHeight: real, maxWidth: real, p: ParagraphProperties)
    requires maxWidth > 0.0 && p.spaceBefore >= 0.0 && p.spaceAfter >= 0.0
    requires p.spaceBefore > 0.0 || p.spaceAfter > 0.0
    ensures TotalHeight(n, lineHeight, maxWidth, p) > (n as real) * lineHeight
  {
    var t := maxWidth / TwipsPerInch;
    assert t > 0.0;
    assert t * p.spaceBefore >= 0.0 && t * p.spaceAfter >= 0.0;
    assert t * p.spaceBefore > 0.0 || t * p.spaceAfter > 0.0;
  }

  // ---------------------------------------------------------------------
  // Per-line records

  datatype BreakType = HardBreak | SoftBreak | Hyphenated

  /** A line as the breaker returns it: a byte range of the text and its width. */
  datatype Line = Line(start: nat, end: nat, width: real, breakType: BreakType)
  {
    predicate IsEmpty() { start == end }
  }

  datatype LineInfo = LineInfo(
    lineNumber: nat,
    start: nat,
    end: nat,
    width: real,
    breakType: BreakType,
    offsetX: real,
    lineHeight: real)

  /** End offset of the last non-empty line before index i (0 when none). */
  function LastEnd(lines: seq<Line>, i: nat): nat
    requires i <= |lines|
  {
    if i == 0 then 0
    else if lines[i - 1].IsEmpty() then LastEnd(lines, i - 1)
    else lines[i - 1].end
  }

  /** The record of line i as written: an empty line is placed at the
      previous end with the left indent in units, a non-empty line keeps the
      breaker's range and takes its offset from LineOffset, in twips. */
  function LineInfoAsWritten(lines: seq<Line>, i: nat, p: ParagraphProperties,
                             maxWidth: real, lineHeight: real): (r: LineInfo)
    requires i < |lines|
    ensures r.lineNumber == i && r.lineHeight == lineHeight
    ensures lines[i].IsEmpty() ==> r.start == r.end == LastEnd(lines, i) && r.width == 0.0 && r.breakType == HardBreak
    ensures !lines[i].IsEmpty() ==> r.start == lines[i].start && r.end == lines[i].end && r.width == lines[i].width
  {
    var l := lines[i];
    if l.IsEmpty() then
      LineInfo(i, LastEnd(lines, i), LastEnd(lines, i), 0.0, HardBreak, TwipsToUnits(p.indentLeft, maxWidth), lineHeight)
    else
      LineInfo(i, l.start, l.end, l.width, l.breakType, LineOffset(i, p), lineHeight)
  }

  /** Offset of a line in layout units, whether it is empty or not. */
  function OffsetUnits(lineIndex: nat, p: ParagraphProperties, maxWidth: real): real
  {
    TwipsToUnits(LineOffset(lineIndex, p), maxWidth)
  }

  /** The record of line i with every offset in units. */
  function LineInfoAt(lines: seq<Line>, i: nat, p: ParagraphProperties,
                      maxWidth: real, lineHeight: real): (r: LineInfo)
    requires i < |lines|
    ensures r.lineNumber == i && r.lineHeight == lineHeight
    ensures lines[i].IsEmpty() ==> r.start == r.end == LastEnd(lines, i) && r.width == 0.0 && r.breakType == HardBreak
    ensures !lines[i].IsEmpty() ==> r.start == lines[i].start && r.end == lines[i].end && r.width == lines[i].width
  {
    LineInfoAsWritten(lines, i, p, maxWidth, lineHeight).(offsetX := OffsetUnits(i, p, maxWidth))
  }

  /** One inch of left indent on a 400-unit line: a later empty line is
      offset by 400 units but a later non-empty line by 1440, past the right
      edge, while the content width is 0. */
  lemma OffsetUnitsMismatch()
    ensures var p := WithIndent(1440.0, 0.0, 0.0);
            var lines := [Line(0, 1, 5.0, HardBreak), Line(1, 1, 0.0, HardBreak),
                          Line(1, 2, 5.0, HardBreak)];
            LineInfoAsWritten(lines, 1, p, 400.0, 16.8).offsetX == 400.0 &&
            LineInfoAsWritten(lines, 2, p, 400.0, 16.8).offsetX == 1440.0 &&
            ContentWidth(400.0, p) == 0.0
  {
    var p := WithIndent(1440.0, 0.0, 0.0);
    var lines := [Line(0, 1, 5.0, HardBreak), Line(1, 1, 0.0, HardBreak),
                  Line(1, 2, 5.0, HardBreak)];
    assert TwipsToUnits(1440.0, 400.0) == 400.0;
    assert LineInfoAsWritten(lines, 2, p, 400.0, 16.8).offsetX == LineOffset(2, p);
  }

  /** With offsets in units, every line after the first starts at the left
      indent, empty or not, and its content box ends at the right indent. */
  lemma OffsetUnitsFitLine(lines: seq<Line>, i: nat, p: ParagraphProperties,
                           maxWidth: real, lineHeight: real)
    requires 0 < i < |lines|
    ensures LineInfoAt(lines, i, p, maxWidth, lineHeight).offsetX == TwipsToUnits(p.indentLeft, maxWidth)
    ensures LineInfoAt(lines, i, p, maxWidth, lineHeight).offsetX + ContentWidth(maxWidth, p)
              + TwipsToUnits(p.indentRight, maxWidth) == maxWidth
  {
  }

  /** All line records of a paragraph, from line i on, as the layout loop builds them. */
  function LineInfosFrom(lines: seq<Line>, i: nat, p: ParagraphProperties,
                         maxWidth: real, lineHeight: real): (r: seq<LineInfo>)
    requires i <= |lines|
    ensures |r| == |lines| - i
    ensures forall k :: 0 <= k < |r| ==> r[k] == LineInfoAsWritten(lines, i + k, p, maxWidth, lineHeight)
    decreases |lines| - i
  {
    if i == |lines| then []
    else [LineInfoAsWritten(lines, i, p, maxWidth, lineHeight)] + LineInfosFrom(lines, i + 1, p, maxWidth, lineHeight)
  }

  datatype ParagraphLayout = ParagraphLayout(
    text: string,
    maxWidth: real,
    contentWidth: real,
    lines: seq<LineInfo>,
    totalHeight: real,
    baseLineHeight: real,
    actualLineHeight: real,
    properties: ParagraphProperties)

  /** Lays out one paragraph, given the lines the breaker produced at the
      content width. */
  function LayoutParagraph(c: LayoutConfig, text: string, maxWidth: real, p: ParagraphProperties,
                           broken: seq<Line>): (r: ParagraphLayout)
    ensures r.text == text && r.maxWidth == maxWidth && r.properties == p
    ensures r.contentWidth == ContentWidth(maxWidth, p)
    ensures r.baseLineHeight == BaseLineHeight(c)
    ensures r.actualLineHeight == LineHeight(r.baseLineHeight, p)
    ensures |r.lines| == |broken|
    ensures forall k :: 0 <= k < |r.lines| ==>
              r.lines[k].lineNumber == k && r.lines[k].lineHeight == r.actualLineHeight
    ensures r.totalHeight == TotalHeight(|broken|, r.actualLineHeight, maxWidth, p)
  {
    var base := BaseLineHeight(c);
    var actual := LineHeight(base, p);
    ParagraphLayout(text, maxWidth, ContentWidth(maxWidth, p), LineInfosFrom(broken, 0, p, maxWidth, actual),
                    TotalHeight(|broken|, actual, maxWidth, p), base, actual, p)
  }

  /** With the default properties the line keeps the whole width, the height
      is the base height and the paragraph is exactly its lines. */
  lemma LayoutParagraphDefault(c: LayoutConfig, text: string, maxWidth: real, broken: seq<Line>)
    ensures var r := LayoutParagraph(c, text, maxWidth, DefaultProperties(), broken);
            r.contentWidth == maxWidth && r.actualLineHeight == r.baseLineHeight &&
            r.totalHeight == (|broken| as real) * r.baseLineHeight &&
            forall k :: 0 <= k < |r.lines| ==> r.lines[k].offsetX == 0.0
  {
  }

  // ---------------------------------------------------------------------
  // Document

  datatype DocumentLayout = DocumentLayout(
    paragraphs: seq<ParagraphLayout>,
    totalWidth: real,
    totalHeight: real,
    lineHeight: real)

  /** Widest line extent (width plus offset) over the given lines, at least w. */
  function WidestFrom(lines: seq<LineInfo>, w: real): (r: real)
    ensures r >= w
    ensures forall k :: 0 <= k < |lines| ==> r >= lines[k].width + lines[k].offsetX
    ensures r == w || exists k :: 0 <= k < |lines| && r == lines[k].width + lines[k].offsetX
  {
    if |lines| == 0 then w
    else
      var l := lines[0];
      var w' := if l.width + l.offsetX > w then l.width + l.offsetX else w;
      var r := WidestFrom(lines[1..], w');
      assert forall k :: 1 <= k < |lines| ==> lines[k] == lines[1..][k - 1];
      r
  }

  /** Widest line of the given paragraphs, starting from 0. */
  function WidestParagraphs(ps: seq<ParagraphLayout>): (r: real)
    ensures r >= 0.0
    ensures forall i, k :: 0 <= i < |ps| && 0 <= k < |ps[i].lines| ==>
              r >= ps[i].lines[k].width + ps[i].lines[k].offsetX
    decreases |ps|
  {
    if |ps| == 0 then 0.0
    else WidestFrom(ps[|ps| - 1].lines, WidestParagraphs(ps[..|ps| - 1]))
  }

  function SumHeights(ps: seq<ParagraphLayout>): real
  {
    if |ps| == 0 then 0.0 else SumHeights(ps[..|ps| - 1]) + ps[|ps| - 1].totalHeight
  }

  /** Splits text at every newline; an empty text is one empty paragraph. */
  function SplitLines(text: string): (r: seq<string>)
    ensures |r| >= 1
    ensures forall i :: 0 <= i < |r| ==> '\n' !in r[i]
  {
    if |text| == 0 then [""]
    else
      var rest := SplitLines(text[1..]);
      if text[0] == '\n' then [""] + rest
      else [[text[0]] + rest[0]] + rest[1..]
  }

  /** Joining the pieces of SplitLines with newlines gives the text back. */
  function JoinLines(parts: seq<string>): string
  {
    if |parts| == 0 then ""
    else if |parts| == 1 then parts[0]
    else parts[0] + "\n" + JoinLines(parts[1..])
  }

  lemma {:induction false} SplitJoin(text: string)
    ensures JoinLines(SplitLines(text)) == text
  {
    if |text| > 0 {
      var rest := SplitLines(text[1..]);
      SplitJoin(text[1..]);
      if text[0] == '\n' {
        assert JoinLines([""] + rest) == "" + "\n" + JoinLines(rest);
        assert text == [text[0]] + text[1..];
      } else {
        var parts := [[text[0]] + rest[0]] + rest[1..];
        if |rest| == 1 {
          assert JoinLines(parts) == [text[0]] + rest[0];
        } else {
          assert rest == [rest[0]] + rest[1..];
          assert JoinLines(rest) == rest[0] + "\n" + JoinLines(rest[1..]);
          assert JoinLines(parts) == ([text[0]] + rest[0]) + "\n" + JoinLines(rest[1..]);
        }
        assert text == [text[0]] + text[1..];
      }
    }
  }

  /** The document layout: one paragraph per newline-separated piece, the
      breaker's lines for each given by breakLines. */
  function LayoutDocument(c: LayoutConfig, text: string, maxWidth: real, p: ParagraphProperties,
                          breakLines: string -> seq<Line>): (r: DocumentLayout)
    ensures |r.paragraphs| == |SplitLines(text)|
    ensures forall i :: 0 <= i < |r.paragraphs| ==>
              r.paragraphs[i] == LayoutParagraph(c, SplitLines(text)[i], maxWidth, p, breakLines(SplitLines(text)[i]))
    ensures r.totalHeight == SumHeights(r.paragraphs)
    ensures r.totalWidth >= 0.0
    ensures forall i, k :: 0 <= i < |r.paragraphs| && 0 <= k < |r.paragraphs[i].lines| ==>
              r.totalWidth >= r.paragraphs[i].lines[k].width + r.paragraphs[i].lines[k].offsetX
    ensures r.lineHeight == BaseLineHeight(c)
  {
    var parts := SplitLines(text);
    var ps := seq(|parts|, i requires 0 <= i < |parts| => LayoutParagraph(c, parts[i], maxWidth, p, breakLines(parts[i])));
    DocumentLayout(ps, WidestParagraphs(ps), SumHeights(ps), BaseLineHeight(c))
  }

  /** The visual order of a line: empty text has none, any other text is
      one left-to-right run over all of it. */
  function VisualOrder(text: string): (r: seq<(nat, nat)>)
    ensures |text| == 0 <==> |r| == 0
    ensures |r| > 0 ==> r == [(0, |text|)]
  {
    if |text| == 0 then [] else [(0, |text|)]
  }
}
