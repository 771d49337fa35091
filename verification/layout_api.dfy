// The layout queries offered to the host over a finished page layout:
// page count and size, the page and line holding a byte offset, and
// visibility.  The viewport geometry of the visible-line query is not part
// of this model; its result is an input of IsVisible.

module LayoutApi {
  import opened Wrappers
  import PageLayout

  datatype PageInfo = PageInfo(index: nat, width: real, height: real, lineCount: nat)

  datatype LineInfo = LineInfo(
    pageIndex: nat,
    lineIndex: nat,
    y: real,
    height: real,
    startOffset: nat,
    endOffset: nat)

  datatype Api = Api(layout: PageLayout.Layout, pageConfig: PageLayout.PageConfig)
  {
    function Pages(): seq<PageLayout.Page> { layout.pages }
  }

  /** `page_count`: the number of pages the layout holds. */
  function PageCount(api: Api): (r: nat)
    ensures r == |api.layout.pages|
  {
    |api.Pages()|
  }

  /** The size comes from the API's page configuration, the line count from
      the page; no page past the end. */
  function GetPageInfo(api: Api, pageIndex: nat): (r: Option<PageInfo>)
    ensures r.Some? <==> pageIndex < PageCount(api)
    ensures r.Some? ==> (r.value.index == api.Pages()[pageIndex].pageIndex
              && r.value.width == api.pageConfig.width && r.value.height == api.pageConfig.height
              && r.value.lineCount == |api.Pages()[pageIndex].lines|)
  {
    if pageIndex < |api.Pages()| then
      var page := api.Pages()[pageIndex];
      Some(PageInfo(page.pageIndex, api.pageConfig.width, api.pageConfig.height, |page.lines|))
    else None
  }

  /** Every page index below the count has page information, and the count
      is the number of pages in the layout. */
  lemma PageCountMatchesInfo(api: Api, pageIndex: nat)
    ensures PageCount(api) == |api.layout.pages|
    ensures GetPageInfo(api, pageIndex).Some? <==> pageIndex < |api.layout.pages|
  {
  }

  /** `page_for_offset` subtracts start from end for every line. */
  predicate RangesOrdered(pages: seq<PageLayout.Page>)
  {
    forall i, j :: 0 <= i < |pages| && 0 <= j < |pages[i].lines| ==> pages[i].lines[j].start <= pages[i].lines[j].end
  }

  /** Bytes covered by the first n lines. */
  function LineBytes(lines: seq<PageLayout.RenderedLine>, n: nat): nat
    requires n <= |lines|
    requires forall j :: 0 <= j < |lines| ==> lines[j].start <= lines[j].end
  {
    if n == 0 then 0 else LineBytes(lines, n - 1) + (lines[n - 1].end - lines[n - 1].start)
  }

  function PageBytes(page: PageLayout.Page): nat
    requires forall j :: 0 <= j < |page.lines| ==> page.lines[j].start <= page.lines[j].end
  {
    LineBytes(page.lines, |page.lines|)
  }

  /** Bytes covered by the first n pages. */
  function PagesBytes(pages: seq<PageLayout.Page>, n: nat): nat
    requires n <= |pages| && RangesOrdered(pages)
  {
    if n == 0 then 0 else PagesBytes(pages, n - 1) + PageBytes(pages[n - 1])
  }

  /** The search from page i on, with count bytes before it. */
  function PageForOffsetFrom(pages: seq<PageLayout.Page>, offset: nat, i: nat): (r: Option<nat>)
    requires i <= |pages| && RangesOrdered(pages)
    requires PagesBytes(pages, i) <= offset
    ensures r.Some? <==> offset < PagesBytes(pages, |pages|)
    ensures r.Some? ==> i <= r.value < |pages| && PagesBytes(pages, r.value) <= offset < PagesBytes(pages, r.value + 1)
    decreases |pages| - i
  {
    if i == |pages| then None
    else if PagesBytes(pages, i) + PageBytes(pages[i]) > offset then
      PagesBytesMonotone(pages, i + 1, |pages|);
      Some(i)
    else PageForOffsetFrom(pages, offset, i + 1)
  }

  lemma {:induction false} PagesBytesMonotone(pages: seq<PageLayout.Page>, a: nat, b: nat)
    requires a <= b <= |pages| && RangesOrdered(pages)
    ensures PagesBytes(pages, a) <= PagesBytes(pages, b)
    decreases b - a
  {
    if a < b {
      PagesBytesMonotone(pages, a, b - 1);
    }
  }

  /** The page holding a byte offset, counting each page as the sum of its
      lines' byte lengths: the page whose running total first exceeds the
      offset, None past the total. */
  function PageForOffset(api: Api, offset: nat): (r: Option<nat>)
    requires RangesOrdered(api.Pages())
    ensures r.Some? <==> offset < PagesBytes(api.Pages(), |api.Pages()|)
    ensures r.Some? ==> (r.value < PageCount(api)
              && PagesBytes(api.Pages(), r.value) <= offset < PagesBytes(api.Pages(), r.value + 1))
  {
    PageForOffsetFrom(api.Pages(), offset, 0)
  }

  /** The page found is the only page whose byte range holds the offset:
      any page whose range holds it is the one returned. */
  lemma PageForOffsetUnique(api: Api, offset: nat, k: nat)
    requires RangesOrdered(api.Pages())
    requires k < PageCount(api) && PagesBytes(api.Pages(), k) <= offset < PagesBytes(api.Pages(), k + 1)
    ensures PageForOffset(api, offset) == Some(k)
  {
    var pages := api.Pages();
    PagesBytesMonotone(pages, k + 1, |pages|);
    var r := PageForOffset(api, offset).value;
    if r < k {
      PagesBytesMonotone(pages, r + 1, k);
    } else if r > k {
      PagesBytesMonotone(pages, k + 1, r);
    }
  }

  predicate Holds(line: PageLayout.RenderedLine, offset: nat)
  {
    line.start <= offset < line.end
  }

  /** Position (p, j) comes before (p', j') in page-then-line order. */
  predicate Before(p: nat, j: nat, p2: nat, j2: nat)
  {
    p < p2 || (p == p2 && j < j2)
  }

  predicate Found(pages: seq<PageLayout.Page>, offset: nat, info: LineInfo)
  {
    info.pageIndex < |pages| && info.lineIndex < |pages[info.pageIndex].lines|
    && var line := pages[info.pageIndex].lines[info.lineIndex];
    Holds(line, offset) && info.y == line.y && info.height == line.height
    && info.startOffset == line.start && info.endOffset == line.end
  }

  /** No line before position (p, j) holds the offset. */
  predicate NoneBefore(pages: seq<PageLayout.Page>, offset: nat, p: nat, j: nat)
  {
    forall p2, j2 :: 0 <= p2 < |pages| && 0 <= j2 < |pages[p2].lines| && Before(p2, j2, p, j)
      ==> !Holds(pages[p2].lines[j2], offset)
  }

  /** The search from line j of page p on. */
  function LineInfoFrom(pages: seq<PageLayout.Page>, offset: nat, p: nat, j: nat): (r: Option<LineInfo>)
    requires p <= |pages| && (p < |pages| ==> j <= |pages[p].lines|)
    requires NoneBefore(pages, offset, p, j)
    ensures r.Some? ==> Found(pages, offset, r.value) && NoneBefore(pages, offset, r.value.pageIndex, r.value.lineIndex)
    ensures r.None? ==> forall p2, j2 :: 0 <= p2 < |pages| && 0 <= j2 < |pages[p2].lines| ==> !Holds(pages[p2].lines[j2], offset)
    decreases |pages| - p, if p < |pages| then |pages[p].lines| - j else 0
  {
    if p == |pages| then None
    else if j == |pages[p].lines| then LineInfoFrom(pages, offset, p + 1, 0)
    else
      var line := pages[p].lines[j];
      if Holds(line, offset) then Some(LineInfo(p, j, line.y, line.height, line.start, line.end))
      else LineInfoFrom(pages, offset, p, j + 1)
  }

  /** The first line, in page-then-line order, whose byte range holds the
      offset, with its page and line index; None when no line holds it. */
  function GetLineInfo(api: Api, offset: nat): (r: Option<LineInfo>)
    ensures r.Some? ==> (Found(api.Pages(), offset, r.value)
              && NoneBefore(api.Pages(), offset, r.value.pageIndex, r.value.lineIndex))
    ensures r.None? ==> (forall p, j :: 0 <= p < |api.Pages()| && 0 <= j < |api.Pages()[p].lines| ==>
                           !Holds(api.Pages()[p].lines[j], offset))
  {
    LineInfoFrom(api.Pages(), offset, 0, 0)
  }

  /** A line that holds the offset is found, and the answer is it unless an
      earlier line holds the offset too. */
  lemma GetLineInfoComplete(api: Api, offset: nat, p: nat, j: nat)
    requires p < |api.Pages()| && j < |api.Pages()[p].lines| && Holds(api.Pages()[p].lines[j], offset)
    ensures GetLineInfo(api, offset).Some?
    ensures NoneBefore(api.Pages(), offset, p, j) ==>
              GetLineInfo(api, offset).value.pageIndex == p && GetLineInfo(api, offset).value.lineIndex == j
  {
    var r := GetLineInfo(api, offset);
    if r.Some? && NoneBefore(api.Pages(), offset, p, j) {
      var q := r.value;
      assert !Before(q.pageIndex, q.lineIndex, p, j);
      assert !Before(p, j, q.pageIndex, q.lineIndex);
    }
  }

  /** Whether anything is visible: the offset plays no part, only whether
      the visible-line query returned any line. */
  function IsVisible(visibleLines: seq<LineInfo>, offset: nat): bool
  {
    |visibleLines| > 0
  }

  lemma IsVisibleIgnoresOffset(visibleLines: seq<LineInfo>, o1: nat, o2: nat)
    ensures IsVisible(visibleLines, o1) == IsVisible(visibleLines, o2)
    ensures IsVisible(visibleLines, o1) <==> visibleLines != []
  {
  }
}
