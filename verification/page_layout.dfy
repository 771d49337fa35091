/**
 * Pagination (`page_layout.rs`): page geometry, column widths, and the
 * second pass that distributes the lines of laid-out paragraphs over
 * pages and columns.  Lengths in points are `real`.
 */
module PageLayout {
  import opened Wrappers

  datatype Rect = Rect(x: real, y: real, width: real, height: real)

  // ---------------------------------------------------------------
  // Page geometry
  // ---------------------------------------------------------------

  datatype PageConfig = PageConfig(
    width: real, height: real,
    marginTop: real, marginBottom: real, marginLeft: real, marginRight: real,
    headerHeight: real, footerHeight: real)

  /** A4 in points with one-inch margins, the default. */
  const A4 := PageConfig(595.35, 841.89, 72.0, 72.0, 72.0, 72.0, 0.0, 0.0)

  const Letter := PageConfig(612.0, 792.0, 72.0, 72.0, 72.0, 72.0, 0.0, 0.0)

  function ContentWidth(c: PageConfig): real
  {
    c.width - c.marginLeft - c.marginRight
  }

  function ContentHeight(c: PageConfig): real
  {
    c.height - c.marginTop - c.marginBottom - c.headerHeight - c.footerHeight
  }

  /** `header_region`: present only for a positive header height, at the top-left margin corner. */
  function HeaderRegion(c: PageConfig): (r: Option<Rect>)
    ensures r.Some? <==> c.headerHeight > 0.0
    ensures r.Some? ==> r.value.x == c.marginLeft && r.value.y == c.marginTop && r.value.height == c.headerHeight
  {
    if c.headerHeight > 0.0 then Some(Rect(c.marginLeft, c.marginTop, ContentWidth(c), c.headerHeight)) else None
  }

  /** `footer_region`: present only for a positive footer height, ending at the bottom margin. */
  function FooterRegion(c: PageConfig): (r: Option<Rect>)
    ensures r.Some? <==> c.footerHeight > 0.0
    ensures r.Some? ==> r.value.x == c.marginLeft && r.value.y + r.value.height == c.height - c.marginBottom
  {
    if c.footerHeight > 0.0 then
      Some(Rect(c.marginLeft, c.height - c.marginBottom - c.footerHeight, ContentWidth(c), c.footerHeight))
    else None
  }

  /**
   * Margins, header, footer and content stack up to the page: the
   * content area is what is left between them, and both regions are as
   * wide as the content.
   */
  lemma PageGeometry(c: PageConfig)
    ensures c.marginLeft + ContentWidth(c) + c.marginRight == c.width
    ensures c.marginTop + c.headerHeight + ContentHeight(c) + c.footerHeight + c.marginBottom == c.height
    ensures HeaderRegion(c).Some? ==> HeaderRegion(c).value.width == ContentWidth(c)
    ensures FooterRegion(c).Some? ==> FooterRegion(c).value.width == ContentWidth(c)
    ensures HeaderRegion(c).Some? && FooterRegion(c).Some? ==>
      HeaderRegion(c).value.y + HeaderRegion(c).value.height + ContentHeight(c) == FooterRegion(c).value.y
  {
  }

  /** The default page: 451.35 points wide and 697.89 high inside the margins. */
  lemma A4Content()
    ensures ContentWidth(A4) == 451.35 && ContentHeight(A4) == 697.89
    ensures HeaderRegion(A4).None? && FooterRegion(A4).None?
  {
  }

  // ---------------------------------------------------------------
  // Pagination settings
  // ---------------------------------------------------------------

  datatype PaginationConfig = PaginationConfig(
    minLinesOrphan: nat, minLinesWidow: nat, enableWidowOrphan: bool,
    allowPageBreaks: bool, keepWithNext: bool,
    columns: nat, columnGap: real, lineHeight: real, fontSize: real)

  const DefaultPagination := PaginationConfig(2, 2, true, true, false, 1, 24.0, 1.2, 12.0)

  /** A laid-out line of a paragraph: its byte range in the paragraph text and its width. */
  datatype LineInfo = LineInfo(start: nat, end: nat, width: real)

  datatype Paragraph = Paragraph(text: string, lines: seq<LineInfo>, totalHeight: real)

  datatype RenderedLine = RenderedLine(
    lineIndex: nat, paragraphIndex: nat, sourceLineIndex: nat,
    y: real, height: real, x: real, width: real, start: nat, end: nat)

  datatype Page = Page(
    pageIndex: nat, lines: seq<RenderedLine>, contentBounds: Rect,
    headerRegion: Option<Rect>, footerRegion: Option<Rect>, column: nat,
    continuedOn: Option<nat>, continuedFrom: Option<nat>)

  datatype Layout = Layout(pageConfig: PageConfig, config: PaginationConfig, pages: seq<Page>, paragraphCount: nat)

  const NewLayout := Layout(A4, DefaultPagination, [], 0)

  function WithPageConfig(c: PageConfig): (r: Layout)
    ensures r.pageConfig == c && r.config == DefaultPagination && r.pages == [] && r.paragraphCount == 0
  {
    NewLayout.(pageConfig := c)
  }

  /** `set_columns`: at least one column. */
  function SetColumns(l: Layout, columns: nat): (r: Layout)
    ensures r.config.columns >= 1
    ensures columns >= 1 ==> r.config.columns == columns
    ensures r == l.(config := l.config.(columns := r.config.columns))
  {
    l.(config := l.config.(columns := if columns >= 1 then columns else 1))
  }

  function SetColumnGap(l: Layout, gap: real): (r: Layout)
    ensures r.config.columnGap == gap && r == l.(config := l.config.(columnGap := gap))
  {
    l.(config := l.config.(columnGap := gap))
  }

  /** `column_width`. */
  function ColumnWidth(l: Layout): real
  {
    if l.config.columns <= 1 then ContentWidth(l.pageConfig)
    else (ContentWidth(l.pageConfig) - l.config.columnGap * (l.config.columns - 1) as real) / l.config.columns as real
  }

  /** The columns and the gaps between them fill the content width exactly. */
  lemma ColumnsFillContent(l: Layout)
    requires l.config.columns >= 1
    ensures l.config.columns as real * ColumnWidth(l) + (l.config.columns - 1) as real * l.config.columnGap
      == ContentWidth(l.pageConfig)
  {
    if l.config.columns > 1 {
      var n := l.config.columns as real;
      var rest := ContentWidth(l.pageConfig) - l.config.columnGap * (l.config.columns - 1) as real;
      assert ColumnWidth(l) == rest / n;
      assert n * (rest / n) == rest;
      assert (l.config.columns - 1) as real * l.config.columnGap == l.config.columnGap * (l.config.columns - 1) as real;
    } else {
      assert l.config.columns as real == 1.0 && (l.config.columns - 1) as real == 0.0;
    }
  }

  /** Widths for one, two and three columns on a 500-point page with 20-point margins. */
  lemma ColumnWidthExamples(l: Layout)
    requires l.pageConfig.width == 500.0 && l.pageConfig.marginLeft == 20.0 && l.pageConfig.marginRight == 20.0
    ensures ColumnWidth(SetColumns(l, 1)) == 460.0
    ensures ColumnWidth(SetColumnGap(SetColumns(l, 2), 20.0)) == 220.0
    ensures ColumnWidth(SetColumnGap(SetColumns(l, 3), 15.0)) == 430.0 / 3.0
  {
  }

  function ActualLineHeight(l: Layout): real
  {
    l.config.lineHeight * l.config.fontSize
  }

  function AvailableHeight(l: Layout): real
  {
    ContentHeight(l.pageConfig)
  }

  /** `calculate_paragraph_height`: one line's height for a paragraph without lines. */
  function ParagraphHeight(l: Layout, p: Paragraph): (r: real)
    ensures p.lines == [] ==> r == ActualLineHeight(l)
    ensures p.lines != [] ==> r == p.totalHeight
  {
    if p.lines == [] then ActualLineHeight(l) else p.totalHeight
  }

  // ---------------------------------------------------------------
  // Laying out one paragraph
  // ---------------------------------------------------------------

  /** Where the next line goes: its y in the column, the column, and the column's x. */
  datatype Cursor = Cursor(y: real, column: nat, x: real)

  /** The x of column `column` (counted from the right edge of the content). */
  function ColumnX(l: Layout, column: nat): real
  {
    if column == 0 then 0.0
    else ContentWidth(l.pageConfig) - (l.config.columns - column) as real * (ColumnWidth(l) + l.config.columnGap)
  }

  function Min(a: real, b: real): real
  {
    if a <= b then a else b
  }

  /** The rendered form of line `j` of paragraph `p`, placed at `at` as line `index` of the page. */
  function Render(l: Layout, para: Paragraph, p: nat, j: nat, index: nat, at: Cursor): RenderedLine
    requires j < |para.lines|
  {
    RenderedLine(index, p, j, at.y, ActualLineHeight(l), at.x,
      Min(para.lines[j].width, ColumnWidth(l)), para.lines[j].start, para.lines[j].end)
  }

  /**
   * `layout_paragraph_to_page` from line `j` on: a line that does not
   * fit below `cursor.y` moves to the top of the next column; when there
   * is no next column the loop stops, leaving the column count reached
   * in the cursor and the paragraph's remaining lines unplaced.
   */
  function LayoutLines(l: Layout, para: Paragraph, p: nat, lines: seq<RenderedLine>, cur: Cursor, j: nat)
    : (r: (seq<RenderedLine>, Cursor))
    requires j <= |para.lines|
    ensures |lines| <= |r.0| <= |lines| + |para.lines| - j
    ensures r.0[..|lines|] == lines
    ensures |r.0| < |lines| + |para.lines| - j ==> r.1.column >= l.config.columns
    ensures cur.column <= r.1.column
    decreases |para.lines| - j
  {
    if j == |para.lines| then (lines, cur)
    else
      var fits := cur.y + ActualLineHeight(l) <= AvailableHeight(l);
      if !fits && cur.column + 1 >= l.config.columns then (lines, cur.(column := cur.column + 1))
      else
        var at := if fits then cur else Cursor(0.0, cur.column + 1, ColumnX(l, cur.column + 1));
        var r := LayoutLines(l, para, p, lines + [Render(l, para, p, j, |lines|, at)], at.(y := at.y + ActualLineHeight(l)), j + 1);
        assert r.0[..|lines| + 1][..|lines|] == r.0[..|lines|];
        r
  }

  /**
   * The lines appended are the paragraph's, in order from line `j`: each
   * records its position on the page, its paragraph and its index in the
   * paragraph, and the paragraph line's byte range.
   */
  lemma {:induction false} LayoutLinesContents(l: Layout, para: Paragraph, p: nat, lines: seq<RenderedLine>, cur: Cursor, j: nat, k: nat)
    requires j <= |para.lines|
    requires |lines| <= k < |LayoutLines(l, para, p, lines, cur, j).0|
    ensures var line := LayoutLines(l, para, p, lines, cur, j).0[k];
      j + (k - |lines|) < |para.lines|
      && line.lineIndex == k && line.paragraphIndex == p && line.sourceLineIndex == j + (k - |lines|)
      && line.start == para.lines[j + (k - |lines|)].start && line.end == para.lines[j + (k - |lines|)].end
      && line.height == ActualLineHeight(l)
    decreases |para.lines| - j
  {
    var fits := cur.y + ActualLineHeight(l) <= AvailableHeight(l);
    var at := if fits then cur else Cursor(0.0, cur.column + 1, ColumnX(l, cur.column + 1));
    var next := lines + [Render(l, para, p, j, |lines|, at)];
    if k > |lines| {
      LayoutLinesContents(l, para, p, next, at.(y := at.y + ActualLineHeight(l)), j + 1, k);
    } else {
      var r := LayoutLines(l, para, p, next, at.(y := at.y + ActualLineHeight(l)), j + 1);
      assert r.0[..|next|][k] == next[k];
    }
  }

  /**
   * Consecutive appended lines either stack (the next starts where the
   * previous ends and still fits) or the next starts a new column at the
   * top because it would not have fitted.
   */
  lemma {:induction false} LayoutLinesAdvance(l: Layout, para: Paragraph, p: nat, lines: seq<RenderedLine>, cur: Cursor, j: nat, k: nat)
    requires j <= |para.lines|
    requires |lines| <= k && k + 1 < |LayoutLines(l, para, p, lines, cur, j).0|
    ensures var ls := LayoutLines(l, para, p, lines, cur, j).0;
      (ls[k + 1].y == ls[k].y + ActualLineHeight(l) && ls[k + 1].y + ActualLineHeight(l) <= AvailableHeight(l))
      || (ls[k + 1].y == 0.0 && ls[k].y + ActualLineHeight(l) + ActualLineHeight(l) > AvailableHeight(l))
    decreases |para.lines| - j
  {
    var lh := ActualLineHeight(l);
    var fits := cur.y + lh <= AvailableHeight(l);
    var at := if fits then cur else Cursor(0.0, cur.column + 1, ColumnX(l, cur.column + 1));
    var next := lines + [Render(l, para, p, j, |lines|, at)];
    var r := LayoutLines(l, para, p, next, at.(y := at.y + lh), j + 1);
    if k > |lines| {
      LayoutLinesAdvance(l, para, p, next, at.(y := at.y + lh), j + 1, k);
    } else {
      assert r.0[k] == next[k] by {
        assert r.0[..|next|][k] == next[k];
      }
      var at2Fits := at.y + lh + lh <= AvailableHeight(l);
      var r2 := LayoutLines(l, para, p, next + [Render(l, para, p, j + 1, |next|, if at2Fits then at.(y := at.y + lh) else Cursor(0.0, at.column + 1, ColumnX(l, at.column + 1)))],
        (if at2Fits then at.(y := at.y + lh) else Cursor(0.0, at.column + 1, ColumnX(l, at.column + 1))).(y := (if at2Fits then at.y + lh else 0.0) + lh), j + 2);
      assert r.0[k + 1].y == (if at2Fits then at.y + lh else 0.0) by {
        assert r == r2;
        assert r2.0[..|next| + 1][k + 1] == r2.0[k + 1];
      }
    }
  }

  // ---------------------------------------------------------------
  // The second pass
  // ---------------------------------------------------------------

  /** An empty page numbered `index`. */
  function NewPage(l: Layout, index: nat): (r: Page)
    ensures r.pageIndex == index && r.lines == []
  {
    Page(index, [], Rect(l.pageConfig.marginLeft, l.pageConfig.marginTop, ContentWidth(l.pageConfig), AvailableHeight(l)),
      HeaderRegion(l.pageConfig), FooterRegion(l.pageConfig), 0, None, None)
  }

  /** Pages are kept only when they have lines. */
  function Push(pages: seq<Page>, page: Page): seq<Page>
  {
    if page.lines != [] then pages + [page] else pages
  }

  datatype PassState = PassState(pages: seq<Page>, current: Page, cur: Cursor)

  /**
   * The finished pages are numbered by position and none is empty; the
   * page being filled carries the next number; every page's lines are
   * numbered by position on the page.
   */
  predicate Numbered(s: PassState)
  {
    (forall k | 0 <= k < |s.pages| :: s.pages[k].pageIndex == k && s.pages[k].lines != [])
    && s.current.pageIndex == |s.pages|
    && (forall k | 0 <= k < |s.pages| :: LinesNumbered(s.pages[k].lines))
    && LinesNumbered(s.current.lines)
  }

  predicate LinesNumbered(lines: seq<RenderedLine>)
  {
    forall m | 0 <= m < |lines| :: lines[m].lineIndex == m
  }

  /** Starts a fresh page, keeping the current one if it has lines. */
  function Break(l: Layout, s: PassState): (r: PassState)
    ensures r.current.lines == [] && r.current.pageIndex == |r.pages|
    ensures r.cur == Cursor(0.0, 0, 0.0)
  {
    var pages := Push(s.pages, s.current);
    PassState(pages, NewPage(l, |pages|), Cursor(0.0, 0, 0.0))
  }

  lemma BreakKeepsNumbered(l: Layout, s: PassState)
    requires Numbered(s)
    ensures Numbered(Break(l, s))
  {
  }

  /**
   * One iteration of the second pass, for paragraph `i`: a new page when
   * the paragraph's height does not fit below the cursor or the columns
   * are used up, then the paragraph's lines.
   */
  function PassStep(l: Layout, paras: seq<Paragraph>, i: nat, s: PassState): PassState
    requires i < |paras|
  {
    var s1 :=
      if s.cur.y + ParagraphHeight(l, paras[i]) > AvailableHeight(l) || s.cur.column >= l.config.columns
      then Break(l, s) else s;
    var (lines, cur) := LayoutLines(l, paras[i], i, s1.current.lines, s1.cur, 0);
    PassState(s1.pages, s1.current.(lines := lines), cur)
  }

  lemma PassStepKeepsNumbered(l: Layout, paras: seq<Paragraph>, i: nat, s: PassState)
    requires i < |paras| && Numbered(s)
    ensures Numbered(PassStep(l, paras, i, s))
  {
    var s1 :=
      if s.cur.y + ParagraphHeight(l, paras[i]) > AvailableHeight(l) || s.cur.column >= l.config.columns
      then Break(l, s) else s;
    BreakKeepsNumbered(l, s);
    var r := LayoutLines(l, paras[i], i, s1.current.lines, s1.cur, 0);
    forall m | |s1.current.lines| <= m < |r.0|
      ensures r.0[m].lineIndex == m
    {
      LayoutLinesContents(l, paras[i], i, s1.current.lines, s1.cur, 0, m);
    }
    forall m | 0 <= m < |s1.current.lines|
      ensures r.0[m].lineIndex == m
    {
      assert r.0[..|s1.current.lines|][m] == r.0[m];
    }
  }

  function PassFrom(l: Layout, paras: seq<Paragraph>, i: nat, s: PassState): PassState
    requires i <= |paras|
    decreases |paras| - i
  {
    if i == |paras| then s else PassFrom(l, paras, i + 1, PassStep(l, paras, i, s))
  }

  lemma {:induction false} PassFromKeepsNumbered(l: Layout, paras: seq<Paragraph>, i: nat, s: PassState)
    requires i <= |paras| && Numbered(s)
    ensures Numbered(PassFrom(l, paras, i, s))
    decreases |paras| - i
  {
    if i < |paras| {
      PassStepKeepsNumbered(l, paras, i, s);
      PassFromKeepsNumbered(l, paras, i + 1, PassStep(l, paras, i, s));
    }
  }

  function InitialState(l: Layout): PassState
  {
    PassState([], NewPage(l, 0), Cursor(0.0, 0, 0.0))
  }

  /** `second_pass_layout`. */
  function SecondPass(l: Layout, paras: seq<Paragraph>): seq<Page>
  {
    var s := PassFrom(l, paras, 0, InitialState(l));
    Push(s.pages, s.current)
  }

  /**
   * The pages of the second pass are numbered 0, 1, … by position,
   * none is empty, and each page's lines are numbered by position.
   */
  lemma SecondPassNumbered(l: Layout, paras: seq<Paragraph>, k: nat)
    requires k < |SecondPass(l, paras)|
    ensures SecondPass(l, paras)[k].pageIndex == k
    ensures SecondPass(l, paras)[k].lines != []
    ensures LinesNumbered(SecondPass(l, paras)[k].lines)
  {
    PassFromKeepsNumbered(l, paras, 0, InitialState(l));
  }

  /** Every page of the second pass is numbered by its position and holds at least one line. */
  lemma SecondPassPagesNumbered(l: Layout, paras: seq<Paragraph>)
    ensures forall k | 0 <= k < |SecondPass(l, paras)| ::
      SecondPass(l, paras)[k].pageIndex == k && SecondPass(l, paras)[k].lines != []
  {
    forall k | 0 <= k < |SecondPass(l, paras)|
      ensures SecondPass(l, paras)[k].pageIndex == k && SecondPass(l, paras)[k].lines != []
    {
      SecondPassNumbered(l, paras, k);
    }
  }

  /**
   * `layout_pages`: records the paragraph count; no paragraphs give no
   * pages, otherwise the pages of the second pass are stored and returned,
   * numbered by position and none of them empty.
   */
  function LayoutPages(l: Layout, paras: seq<Paragraph>): (r: (Layout, seq<Page>))
    ensures r.0.paragraphCount == |paras|
    ensures paras == [] ==> r.1 == [] && r.0.pages == l.pages
    ensures paras != [] ==> r.0.pages == r.1
    ensures r.0.pageConfig == l.pageConfig && r.0.config == l.config
    ensures forall k | 0 <= k < |r.1| :: r.1[k].pageIndex == k && r.1[k].lines != []
  {
    if paras == [] then (l.(paragraphCount := 0), [])
    else
      SecondPassPagesNumbered(l, paras);
      var pages := SecondPass(l, paras);
      (l.(pages := pages, paragraphCount := |paras|), pages)
  }

  /** `layout_pages` with paragraphs continued across pages: every line of every paragraph is laid out, in order. */
  function LayoutPagesCorrected(l: Layout, paras: seq<Paragraph>): (r: (Layout, seq<Page>))
    ensures r.0.paragraphCount == |paras|
    ensures paras == [] ==> r.1 == [] && r.0.pages == l.pages
    ensures paras != [] ==> r.0.pages == r.1
    ensures r.0.pageConfig == l.pageConfig && r.0.config == l.config
    ensures Keys(r.1) == AllLines(paras)
  {
    if paras == [] then (l.(paragraphCount := 0), [])
    else
      CorrectedSecondPassKeepsEveryLine(l, paras);
      var pages := CorrectedSecondPass(l, paras);
      (l.(pages := pages, paragraphCount := |paras|), pages)
  }

  /** As written, laying out the three-line paragraph on the short page loses its last line. */
  lemma LayoutPagesDropsLines()
    ensures Keys(LayoutPages(ShortLayout, [ThreeLines]).1) != AllLines([ThreeLines])
    ensures Keys(LayoutPagesCorrected(ShortLayout, [ThreeLines]).1) == AllLines([ThreeLines])
  {
    SecondPassDropsLines();
  }

  /** `page_count`. */
  function PageCount(l: Layout): nat
  {
    |l.pages|
  }

  // ---------------------------------------------------------------
  // Lost lines
  // ---------------------------------------------------------------

  datatype LineKey = LineKey(paragraph: nat, line: nat)

  function LineKeys(lines: seq<RenderedLine>): (r: seq<LineKey>)
    ensures |r| == |lines|
  {
    seq(|lines|, m requires 0 <= m < |lines| => LineKey(lines[m].paragraphIndex, lines[m].sourceLineIndex))
  }

  /** Which source line every rendered line of the pages is, page after page. */
  function Keys(pages: seq<Page>): seq<LineKey>
  {
    if pages == [] then [] else Keys(pages[..|pages| - 1]) + LineKeys(pages[|pages| - 1].lines)
  }

  /** Every line of the paragraphs from `i` on, in document order. */
  function AllLinesFrom(paras: seq<Paragraph>, i: nat): seq<LineKey>
    requires i <= |paras|
    decreases |paras| - i
  {
    if i == |paras| then [] else ParaKeys(i, 0, |paras[i].lines|) + AllLinesFrom(paras, i + 1)
  }

  function AllLines(paras: seq<Paragraph>): seq<LineKey>
  {
    AllLinesFrom(paras, 0)
  }

  /** Lines `from` up to `to` of paragraph `p`. */
  function ParaKeys(p: nat, from: nat, to: nat): (r: seq<LineKey>)
    requires from <= to
    ensures |r| == to - from
  {
    seq(to - from, k requires 0 <= k < to - from => LineKey(p, from + k))
  }

  /** A 30-point-high content area and 12-point lines: room for two lines in one column. */
  const ShortPage := PageConfig(500.0, 174.0, 72.0, 72.0, 20.0, 20.0, 0.0, 0.0)

  const ThreeLines := Paragraph("aaabbbccc", [LineInfo(0, 3, 30.0), LineInfo(3, 6, 30.0), LineInfo(6, 9, 30.0)], 36.0)

  /** The layout the counterexample uses: one column, 12-point lines, 30 points of content height. */
  const ShortLayout := Layout(ShortPage, DefaultPagination.(lineHeight := 1.0), [], 0)

  /** The first two lines of `ThreeLines` as the second pass places them. */
  function ExampleLine(j: nat): RenderedLine
    requires j < 2
  {
    Render(ShortLayout, ThreeLines, 0, j, j, Cursor(if j == 0 then 0.0 else 12.0, 0, 0.0))
  }

  lemma SecondPassExamplePage()
    ensures SecondPass(ShortLayout, [ThreeLines]) == [NewPage(ShortLayout, 0).(lines := [ExampleLine(0), ExampleLine(1)])]
  {
    var l := ShortLayout;
    assert AvailableHeight(l) == 30.0 && ActualLineHeight(l) == 12.0;
    var s0 := InitialState(l);
    assert Break(l, s0) == s0;
    LayoutLinesExampleSteps(l, ExampleLine(0), ExampleLine(1));
    var s := PassStep(l, [ThreeLines], 0, s0);
    assert s.current.lines == [ExampleLine(0), ExampleLine(1)];
    assert PassFrom(l, [ThreeLines], 0, s0) == PassFrom(l, [ThreeLines], 1, s);
  }

  lemma AllLinesExample()
    ensures AllLines([ThreeLines]) == [LineKey(0, 0), LineKey(0, 1), LineKey(0, 2)]
  {
    assert AllLinesFrom([ThreeLines], 1) == [];
    assert ParaKeys(0, 0, 3) == [LineKey(0, 0), LineKey(0, 1), LineKey(0, 2)];
  }

  /**
   * As written, a paragraph that overflows the last column loses its
   * remaining lines: the paragraph's third line appears on no page.
   */
  lemma SecondPassDropsLines()
    ensures Keys(SecondPass(ShortLayout, [ThreeLines])) == [LineKey(0, 0), LineKey(0, 1)]
    ensures AllLines([ThreeLines]) == [LineKey(0, 0), LineKey(0, 1), LineKey(0, 2)]
  {
    SecondPassExamplePage();
    AllLinesExample();
    var page := NewPage(ShortLayout, 0).(lines := [ExampleLine(0), ExampleLine(1)]);
    assert [page][..0] == [];
    assert Keys([page]) == LineKeys(page.lines);
  }

  lemma LayoutLinesExampleSteps(l: Layout, line0: RenderedLine, line1: RenderedLine)
    requires l == Layout(ShortPage, DefaultPagination.(lineHeight := 1.0), [], 0)
    requires line0 == Render(l, ThreeLines, 0, 0, 0, Cursor(0.0, 0, 0.0))
    requires line1 == Render(l, ThreeLines, 0, 1, 1, Cursor(12.0, 0, 0.0))
    ensures LayoutLines(l, ThreeLines, 0, [], Cursor(0.0, 0, 0.0), 0) == ([line0, line1], Cursor(24.0, 1, 0.0))
  {
    assert AvailableHeight(l) == 30.0 && ActualLineHeight(l) == 12.0;
    assert l.config.columns == 1 && |ThreeLines.lines| == 3;
    assert LayoutLines(l, ThreeLines, 0, [line0, line1], Cursor(24.0, 0, 0.0), 2) == ([line0, line1], Cursor(24.0, 1, 0.0));
    var c1 := Cursor(12.0, 0, 0.0);
    assert c1.y + ActualLineHeight(l) <= AvailableHeight(l);
    assert c1.(y := c1.y + ActualLineHeight(l)) == Cursor(24.0, 0, 0.0);
    assert Render(l, ThreeLines, 0, 1, |[line0]|, c1) == line1;
    assert [line0] + [line1] == [line0, line1];
    assert LayoutLines(l, ThreeLines, 0, [line0], c1, 1)
      == LayoutLines(l, ThreeLines, 0, [line0] + [Render(l, ThreeLines, 0, 1, |[line0]|, c1)], c1.(y := c1.y + ActualLineHeight(l)), 2);
    assert LayoutLines(l, ThreeLines, 0, [line0], Cursor(12.0, 0, 0.0), 1)
      == LayoutLines(l, ThreeLines, 0, [line0, line1], Cursor(24.0, 0, 0.0), 2);
    var c0 := Cursor(0.0, 0, 0.0);
    var none: seq<RenderedLine> := [];
    assert c0.y + ActualLineHeight(l) <= AvailableHeight(l);
    assert c0.(y := c0.y + ActualLineHeight(l)) == c1;
    assert Render(l, ThreeLines, 0, 0, 0, c0) == line0;
    assert LayoutLines(l, ThreeLines, 0, none, c0, 0)
      == LayoutLines(l, ThreeLines, 0, none + [Render(l, ThreeLines, 0, 0, 0, c0)], c0.(y := c0.y + ActualLineHeight(l)), 1);
    assert none + [line0] == [line0];
  }

  // ---------------------------------------------------------------
  // Continuing on the next page
  // ---------------------------------------------------------------

  /** The source lines of the finished pages and then of the page being filled. */
  function StateKeys(s: PassState): seq<LineKey>
  {
    Keys(s.pages) + LineKeys(s.current.lines)
  }

  lemma KeysPush(pages: seq<Page>, page: Page)
    ensures Keys(Push(pages, page)) == Keys(pages) + LineKeys(page.lines)
  {
    if page.lines != [] {
      assert (pages + [page])[..|pages|] == pages;
    }
  }

  lemma BreakKeepsKeys(l: Layout, s: PassState)
    ensures StateKeys(Break(l, s)) == StateKeys(s)
  {
    KeysPush(s.pages, s.current);
  }

  /**
   * Line `j` of the paragraph on the next free spot: below the cursor if
   * it fits, else at the top of the next column, else at the top of a
   * new page.
   */
  function ContinueLine(l: Layout, para: Paragraph, p: nat, s: PassState, j: nat): (r: PassState)
    requires j < |para.lines|
  {
    var s1 := Spot(l, s);
    var line := Render(l, para, p, j, |s1.current.lines|, s1.cur);
    PassState(s1.pages, s1.current.(lines := s1.current.lines + [line]), s1.cur.(y := s1.cur.y + ActualLineHeight(l)))
  }

  /** Placing a line adds exactly that line to the pages' contents and keeps the numbering. */
  lemma ContinueLineEffect(l: Layout, para: Paragraph, p: nat, s: PassState, j: nat)
    requires j < |para.lines| && Numbered(s)
    ensures StateKeys(ContinueLine(l, para, p, s, j)) == StateKeys(s) + [LineKey(p, j)]
    ensures Numbered(ContinueLine(l, para, p, s, j))
  {
    var s1 := Spot(l, s);
    SpotKeeps(l, s);
    var line := Render(l, para, p, j, |s1.current.lines|, s1.cur);
    assert LineKeys(s1.current.lines + [line]) == LineKeys(s1.current.lines) + [LineKey(p, j)];
  }

  /** Moving on to the next column or page, as the next line needs. */
  function Spot(l: Layout, s: PassState): PassState
  {
    if s.cur.y + ActualLineHeight(l) <= AvailableHeight(l) then s
    else if s.cur.column + 1 < l.config.columns then s.(cur := Cursor(0.0, s.cur.column + 1, ColumnX(l, s.cur.column + 1)))
    else Break(l, s)
  }

  lemma SpotKeeps(l: Layout, s: PassState)
    requires Numbered(s)
    ensures StateKeys(Spot(l, s)) == StateKeys(s) && Numbered(Spot(l, s))
  {
    BreakKeepsKeys(l, s);
    BreakKeepsNumbered(l, s);
  }

  /** The corrected paragraph loop: every remaining line is placed, on a new page if need be. */
  function ContinueLines(l: Layout, para: Paragraph, p: nat, s: PassState, j: nat): PassState
    requires j <= |para.lines|
    decreases |para.lines| - j
  {
    if j == |para.lines| then s else ContinueLines(l, para, p, ContinueLine(l, para, p, s, j), j + 1)
  }

  lemma {:induction false} ContinueLinesEffect(l: Layout, para: Paragraph, p: nat, s: PassState, j: nat)
    requires j <= |para.lines| && Numbered(s)
    ensures StateKeys(ContinueLines(l, para, p, s, j)) == StateKeys(s) + ParaKeys(p, j, |para.lines|)
    ensures Numbered(ContinueLines(l, para, p, s, j))
    decreases |para.lines| - j
  {
    if j < |para.lines| {
      ContinueLineEffect(l, para, p, s, j);
      ContinueLinesEffect(l, para, p, ContinueLine(l, para, p, s, j), j + 1);
      assert ParaKeys(p, j, |para.lines|) == [LineKey(p, j)] + ParaKeys(p, j + 1, |para.lines|);
    }
  }

  /** The corrected iteration for paragraph `i`. */
  function CorrectedStep(l: Layout, paras: seq<Paragraph>, i: nat, s: PassState): PassState
    requires i < |paras|
  {
    var s1 :=
      if s.cur.y + ParagraphHeight(l, paras[i]) > AvailableHeight(l) || s.cur.column >= l.config.columns
      then Break(l, s) else s;
    ContinueLines(l, paras[i], i, s1, 0)
  }

  function CorrectedFrom(l: Layout, paras: seq<Paragraph>, i: nat, s: PassState): PassState
    requires i <= |paras|
    decreases |paras| - i
  {
    if i == |paras| then s else CorrectedFrom(l, paras, i + 1, CorrectedStep(l, paras, i, s))
  }

  lemma {:induction false} CorrectedFromEffect(l: Layout, paras: seq<Paragraph>, i: nat, s: PassState)
    requires i <= |paras| && Numbered(s)
    ensures StateKeys(CorrectedFrom(l, paras, i, s)) == StateKeys(s) + AllLinesFrom(paras, i)
    ensures Numbered(CorrectedFrom(l, paras, i, s))
    decreases |paras| - i
  {
    if i < |paras| {
      CorrectedStepEffect(l, paras, i, s);
      CorrectedFromEffect(l, paras, i + 1, CorrectedStep(l, paras, i, s));
      assert AllLinesFrom(paras, i) == ParaKeys(i, 0, |paras[i].lines|) + AllLinesFrom(paras, i + 1);
    }
  }

  lemma CorrectedStepEffect(l: Layout, paras: seq<Paragraph>, i: nat, s: PassState)
    requires i < |paras| && Numbered(s)
    ensures StateKeys(CorrectedStep(l, paras, i, s)) == StateKeys(s) + ParaKeys(i, 0, |paras[i].lines|)
    ensures Numbered(CorrectedStep(l, paras, i, s))
  {
    var s1 :=
      if s.cur.y + ParagraphHeight(l, paras[i]) > AvailableHeight(l) || s.cur.column >= l.config.columns
      then Break(l, s) else s;
    BreakKeepsKeys(l, s);
    BreakKeepsNumbered(l, s);
    ContinueLinesEffect(l, paras[i], i, s1, 0);
  }

  /** The second pass with paragraphs continued across pages. */
  function CorrectedSecondPass(l: Layout, paras: seq<Paragraph>): seq<Page>
  {
    var s := CorrectedFrom(l, paras, 0, InitialState(l));
    Push(s.pages, s.current)
  }

  /**
   * Every line of every paragraph appears exactly once, in document
   * order, and the pages are numbered and non-empty as before.
   */
  lemma CorrectedSecondPassKeepsEveryLine(l: Layout, paras: seq<Paragraph>)
    ensures Keys(CorrectedSecondPass(l, paras)) == AllLines(paras)
    ensures forall k | 0 <= k < |CorrectedSecondPass(l, paras)| ::
      CorrectedSecondPass(l, paras)[k].pageIndex == k && CorrectedSecondPass(l, paras)[k].lines != []
  {
    var s := CorrectedFrom(l, paras, 0, InitialState(l));
    CorrectedFromEffect(l, paras, 0, InitialState(l));
    KeysPush(s.pages, s.current);
  }

  // ---------------------------------------------------------------
  // Rendering and lookup
  // ---------------------------------------------------------------

  datatype RenderedPage = RenderedPage(
    pageIndex: nat, contentBounds: Rect, lines: seq<RenderedLine>,
    headerRegion: Option<Rect>, footerRegion: Option<Rect>, pageWidth: real, pageHeight: real)

  /** `From<Page> for RenderedPage`: the page's contents, with the page size left at 0 for the caller. */
  function ToRenderedPage(p: Page): (r: RenderedPage)
    ensures r.pageIndex == p.pageIndex && r.lines == p.lines && r.contentBounds == p.contentBounds
    ensures r.headerRegion == p.headerRegion && r.footerRegion == p.footerRegion
    ensures r.pageWidth == 0.0 && r.pageHeight == 0.0
  {
    RenderedPage(p.pageIndex, p.contentBounds, p.lines, p.headerRegion, p.footerRegion, 0.0, 0.0)
  }

  /**
   * `get_page_for_offset` over the lines from page `pi`, line `li` on,
   * with `count` bytes of line text passed: the first page whose running
   * total exceeds `offset`.  A line naming a missing paragraph or a byte
   * range outside its text ends the search with `None`.
   */
  function PageForOffsetFrom(pages: seq<Page>, paras: seq<Paragraph>, offset: nat, pi: nat, li: nat, count: nat): (r: Option<nat>)
    requires pi <= |pages|
    requires pi < |pages| ==> li <= |pages[pi].lines|
    ensures r.Some? ==> pi <= r.value < |pages|
    decreases |pages| - pi, if pi < |pages| then |pages[pi].lines| - li else 0
  {
    if pi == |pages| then None
    else if li == |pages[pi].lines| then PageForOffsetFrom(pages, paras, offset, pi + 1, 0, count)
    else
      var line := pages[pi].lines[li];
      if line.paragraphIndex >= |paras| then None
      else if !(line.start <= line.end <= |paras[line.paragraphIndex].text|) then None
      else if count + (line.end - line.start) > offset then Some(pi)
      else PageForOffsetFrom(pages, paras, offset, pi, li + 1, count + (line.end - line.start))
  }

  function PageForOffset(l: Layout, offset: nat, paras: seq<Paragraph>): (r: Option<nat>)
    ensures r.Some? ==> r.value < |l.pages|
  {
    PageForOffsetFrom(l.pages, paras, offset, 0, 0, 0)
  }

  /** With no pages there is no page for any offset. */
  lemma PageForOffsetNoPages(l: Layout, offset: nat, paras: seq<Paragraph>)
    requires l.pages == []
    ensures PageForOffset(l, offset, paras).None?
  {
  }

  /** A line names an existing paragraph and a byte range inside its text. */
  predicate LineInText(line: RenderedLine, paras: seq<Paragraph>)
  {
    line.paragraphIndex < |paras| && line.start <= line.end <= |paras[line.paragraphIndex].text|
  }

  predicate AllLinesInText(pages: seq<Page>, paras: seq<Paragraph>)
  {
    forall q, k | 0 <= q < |pages| && 0 <= k < |pages[q].lines| :: LineInText(pages[q].lines[k], paras)
  }

  /** Bytes of line text from page `pi`, line `li` to the end of the document. */
  function BytesFrom(pages: seq<Page>, paras: seq<Paragraph>, pi: nat, li: nat): nat
    requires pi <= |pages|
    requires pi < |pages| ==> li <= |pages[pi].lines|
    decreases |pages| - pi, if pi < |pages| then |pages[pi].lines| - li else 0
  {
    if pi == |pages| then 0
    else if li == |pages[pi].lines| then BytesFrom(pages, paras, pi + 1, 0)
    else
      var line := pages[pi].lines[li];
      (if LineInText(line, paras) then line.end - line.start else 0) + BytesFrom(pages, paras, pi, li + 1)
  }

  lemma {:induction false} BytesFromPageTail(pages: seq<Page>, paras: seq<Paragraph>, pi: nat, li: nat)
    requires pi < |pages| && li <= |pages[pi].lines|
    ensures BytesFrom(pages, paras, pi, li) >= BytesFrom(pages, paras, pi + 1, 0)
    decreases |pages[pi].lines| - li
  {
    if li < |pages[pi].lines| {
      BytesFromPageTail(pages, paras, pi, li + 1);
    }
  }

  /**
   * When every line lies inside its paragraph, the search from a point
   * with `count <= offset` bytes passed finds a page exactly when the
   * offset falls before the end of the text, and the page it finds is
   * the one whose bytes cover the offset.
   */
  lemma {:induction false} PageForOffsetFromCovers(pages: seq<Page>, paras: seq<Paragraph>, offset: nat, pi: nat, li: nat, count: nat)
    requires pi <= |pages|
    requires pi < |pages| ==> li <= |pages[pi].lines|
    requires AllLinesInText(pages, paras) && count <= offset
    ensures PageForOffsetFrom(pages, paras, offset, pi, li, count).Some?
      <==> offset < count + BytesFrom(pages, paras, pi, li)
    ensures PageForOffsetFrom(pages, paras, offset, pi, li, count).Some? ==>
      offset < count + BytesFrom(pages, paras, pi, li)
        - BytesFrom(pages, paras, PageForOffsetFrom(pages, paras, offset, pi, li, count).value + 1, 0)
    ensures (PageForOffsetFrom(pages, paras, offset, pi, li, count).Some?
      && PageForOffsetFrom(pages, paras, offset, pi, li, count).value > pi) ==>
      count + BytesFrom(pages, paras, pi, li)
        - BytesFrom(pages, paras, PageForOffsetFrom(pages, paras, offset, pi, li, count).value, 0) <= offset
    decreases |pages| - pi, if pi < |pages| then |pages[pi].lines| - li else 0
  {
    if pi == |pages| {
    } else if li == |pages[pi].lines| {
      PageForOffsetFromCovers(pages, paras, offset, pi + 1, 0, count);
    } else {
      var line := pages[pi].lines[li];
      assert LineInText(line, paras);
      BytesFromPageTail(pages, paras, pi, li + 1);
      if count + (line.end - line.start) <= offset {
        PageForOffsetFromCovers(pages, paras, offset, pi, li + 1, count + (line.end - line.start));
      }
    }
  }

  /**
   * `get_page_for_offset` on a layout whose lines all lie inside their
   * paragraphs: it answers exactly for offsets before the end of the
   * laid-out text, and the page `q` it answers holds the offset, the
   * bytes of pages before `q` being at most the offset and those up to
   * and including `q` exceeding it.
   */
  lemma PageForOffsetLocates(l: Layout, offset: nat, paras: seq<Paragraph>)
    requires AllLinesInText(l.pages, paras)
    ensures PageForOffset(l, offset, paras).Some? <==> offset < BytesFrom(l.pages, paras, 0, 0)
    ensures PageForOffset(l, offset, paras).Some? ==>
      BytesFrom(l.pages, paras, 0, 0) - BytesFrom(l.pages, paras, PageForOffset(l, offset, paras).value, 0) <= offset
      < BytesFrom(l.pages, paras, 0, 0) - BytesFrom(l.pages, paras, PageForOffset(l, offset, paras).value + 1, 0)
  {
    PageForOffsetFromCovers(l.pages, paras, offset, 0, 0, 0);
  }
}
