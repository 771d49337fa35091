/**
 * The render queries offered to the host over the rendered pages
 * (`api_layer/render_api.rs`): which page areas an edit of a byte range
 * makes dirty, and the draw commands of a page.  Per-page images and PNG
 * export are placeholders in the Rust code and stay so here.
 */
module RenderApi {
  import opened Wrappers
  import opened TextUtil
  import PageLayout
  import Image

  datatype RenderRect = RenderRect(x: real, y: real, width: real, height: real)

  datatype DirtyRect = DirtyRect(rect: RenderRect, fromOffset: nat, toOffset: nat)

  datatype RenderCommand =
    | DrawText(text: string, x: real, y: real, fontSize: real, color: string, bold: bool, italic: bool)
    | DrawRect(x: real, y: real, width: real, height: real, color: string)
    | DrawImage(imageId: string, x: real, y: real, width: real, height: real)
    | DrawSelection(rects: seq<RenderRect>, color: string)
    | DrawCursor(x: real, y: real, height: real, color: string)

  datatype PageRenderData = PageRenderData(
    pageIndex: nat, width: real, height: real, commands: seq<RenderCommand>, images: seq<Image.RenderedImage>)

  datatype SimpleRenderApi = SimpleRenderApi(pages: seq<PageLayout.RenderedPage>)

  // ---------------------------------------------------------------------
  // Dirty regions
  // ---------------------------------------------------------------------

  /** The overlap test of `dirty_regions`: the line starts inside the range,
      ends inside it, or spans it. */
  predicate Touches(line: PageLayout.RenderedLine, from: nat, to: nat)
  {
    (line.start >= from && line.start < to)
    || (line.end > from && line.end <= to)
    || (line.start <= from && line.end >= to)
  }

  /** For a non-empty line and a non-empty range the test is the ordinary
      overlap of the half-open intervals [start, end) and [from, to). */
  lemma TouchesIsOverlap(line: PageLayout.RenderedLine, from: nat, to: nat)
    requires line.start < line.end && from < to
    ensures Touches(line, from, to) <==> line.start < to && from < line.end
  {
  }

  /** An empty range (a caret position) touches the lines whose closed
      range [start, end] holds it. */
  lemma TouchesEmptyRange(line: PageLayout.RenderedLine, at: nat)
    ensures Touches(line, at, at) <==> line.start <= at <= line.end
  {
  }

  /** `Iterator::any` over the lines. */
  function AnyTouches(lines: seq<PageLayout.RenderedLine>, from: nat, to: nat): (r: bool)
    ensures r <==> exists j :: 0 <= j < |lines| && Touches(lines[j], from, to)
  {
    if |lines| == 0 then false
    else Touches(lines[0], from, to) || AnyTouches(lines[1..], from, to)
  }

  predicate HasContent(page: PageLayout.RenderedPage, from: nat, to: nat)
  {
    exists j :: 0 <= j < |page.lines| && Touches(page.lines[j], from, to)
  }

  function BoundsRect(page: PageLayout.RenderedPage): RenderRect
  {
    RenderRect(page.contentBounds.x, page.contentBounds.y, page.contentBounds.width, page.contentBounds.height)
  }

  /** The loop of `dirty_regions` from page i on. */
  function DirtyRegionsFrom(pages: seq<PageLayout.RenderedPage>, from: nat, to: nat, i: nat): (r: seq<DirtyRect>)
    requires i <= |pages|
    ensures |r| <= |pages| - i
    ensures forall k :: 0 <= k < |r| ==> r[k].fromOffset == from && r[k].toOffset == to
    decreases |pages| - i
  {
    if i == |pages| then []
    else
      var rest := DirtyRegionsFrom(pages, from, to, i + 1);
      if AnyTouches(pages[i].lines, from, to) then [DirtyRect(BoundsRect(pages[i]), from, to)] + rest
      else rest
  }

  /** `dirty_regions`: at most one rectangle per page, each carrying the
      range unchanged. */
  function DirtyRegions(api: SimpleRenderApi, from: nat, to: nat): (r: seq<DirtyRect>)
    ensures |r| <= |api.pages|
    ensures forall k :: 0 <= k < |r| ==> r[k].fromOffset == from && r[k].toOffset == to
  {
    DirtyRegionsFrom(api.pages, from, to, 0)
  }

  /** The indices, from i on, of the pages with a line the range touches. */
  function DirtyPagesFrom(pages: seq<PageLayout.RenderedPage>, from: nat, to: nat, i: nat): (r: seq<nat>)
    requires i <= |pages|
    decreases |pages| - i
  {
    if i == |pages| then []
    else if HasContent(pages[i], from, to) then [i] + DirtyPagesFrom(pages, from, to, i + 1)
    else DirtyPagesFrom(pages, from, to, i + 1)
  }

  /** `idx` lists, in increasing order, exactly the pages from i on with a
      touched line. */
  predicate SelectsTouched(pages: seq<PageLayout.RenderedPage>, from: nat, to: nat, i: nat, idx: seq<nat>)
  {
    (forall k :: 0 <= k < |idx| ==> i <= idx[k] < |pages| && HasContent(pages[idx[k]], from, to))
    && (forall k, m :: 0 <= k < m < |idx| ==> idx[k] < idx[m])
    && (forall p :: i <= p < |pages| && HasContent(pages[p], from, to) ==> p in idx)
  }

  lemma {:induction false} DirtyPagesFromSelects(pages: seq<PageLayout.RenderedPage>, from: nat, to: nat, i: nat)
    requires i <= |pages|
    ensures SelectsTouched(pages, from, to, i, DirtyPagesFrom(pages, from, to, i))
    decreases |pages| - i
  {
    if i < |pages| {
      DirtyPagesFromSelects(pages, from, to, i + 1);
      var rest := DirtyPagesFrom(pages, from, to, i + 1);
      if HasContent(pages[i], from, to) {
        var idx := [i] + rest;
        assert forall k :: 0 < k < |idx| ==> idx[k] == rest[k - 1];
        assert forall p :: i < p < |pages| && p in rest ==> p in idx;
      }
    }
  }

  /** The rectangles are the content bounds of the pages `idx` lists. */
  predicate BoundsOf(r: seq<DirtyRect>, pages: seq<PageLayout.RenderedPage>, idx: seq<nat>)
  {
    |r| == |idx| && forall k :: 0 <= k < |r| ==> idx[k] < |pages| && r[k].rect == BoundsRect(pages[idx[k]])
  }

  /** The dirty regions are the content bounds of exactly the pages with a
      touched line, in page order. */
  lemma {:induction false} DirtyRegionsArePages(pages: seq<PageLayout.RenderedPage>, from: nat, to: nat, i: nat)
    requires i <= |pages|
    ensures BoundsOf(DirtyRegionsFrom(pages, from, to, i), pages, DirtyPagesFrom(pages, from, to, i))
    ensures SelectsTouched(pages, from, to, i, DirtyPagesFrom(pages, from, to, i))
    decreases |pages| - i
  {
    DirtyPagesFromSelects(pages, from, to, i);
    if i < |pages| {
      DirtyRegionsArePages(pages, from, to, i + 1);
      var rest := DirtyRegionsFrom(pages, from, to, i + 1);
      var restIdx := DirtyPagesFrom(pages, from, to, i + 1);
      if HasContent(pages[i], from, to) {
        var r := [DirtyRect(BoundsRect(pages[i]), from, to)] + rest;
        var idx := [i] + restIdx;
        assert DirtyRegionsFrom(pages, from, to, i) == r;
        assert DirtyPagesFrom(pages, from, to, i) == idx;
        assert forall k :: 0 < k < |r| ==> r[k] == rest[k - 1] && idx[k] == restIdx[k - 1];
      } else {
        assert DirtyRegionsFrom(pages, from, to, i) == rest;
        assert DirtyPagesFrom(pages, from, to, i) == restIdx;
      }
    }
  }

  /** A page one of whose lines the range touches always has a dirty
      region. */
  lemma DirtyRegionsCoverTouchedPage(api: SimpleRenderApi, from: nat, to: nat, p: nat, j: nat)
    requires p < |api.pages| && j < |api.pages[p].lines| && Touches(api.pages[p].lines[j], from, to)
    ensures exists k :: 0 <= k < |DirtyRegions(api, from, to)| && DirtyRegions(api, from, to)[k].rect == BoundsRect(api.pages[p])
  {
    DirtyRegionsArePages(api.pages, from, to, 0);
    var idx := DirtyPagesFrom(api.pages, from, to, 0);
    assert HasContent(api.pages[p], from, to);
    assert p in idx;
    var k :| 0 <= k < |idx| && idx[k] == p;
    assert DirtyRegions(api, from, to)[k].rect == BoundsRect(api.pages[p]);
  }

  // ---------------------------------------------------------------------
  // Page commands
  // ---------------------------------------------------------------------

  /** The placeholder text drawn for a line: "[Text start..end]". */
  function LineLabel(start: nat, end: nat): string
  {
    "[Text " + NatToString(start) + ".." + NatToString(end) + "]"
  }

  function LineCommand(line: PageLayout.RenderedLine): RenderCommand
  {
    DrawText(LineLabel(line.start, line.end), line.x, line.y, 12.0, "#000000", false, false)
  }

  /** `render_page_commands`: None past the last page; otherwise one black,
      plain, 12-point text command per line, in line order, at the line's
      position. */
  function RenderPageCommands(api: SimpleRenderApi, pageIndex: nat): (r: Option<seq<RenderCommand>>)
    ensures r.Some? <==> pageIndex < |api.pages|
    ensures r.Some? ==> |r.value| == |api.pages[pageIndex].lines|
    ensures r.Some? ==> forall k :: 0 <= k < |r.value| ==>
              r.value[k].DrawText? && r.value[k].x == api.pages[pageIndex].lines[k].x
              && r.value[k].y == api.pages[pageIndex].lines[k].y && r.value[k].fontSize == 12.0
              && r.value[k].color == "#000000" && !r.value[k].bold && !r.value[k].italic
  {
    if pageIndex < |api.pages| then
      Some(seq(|api.pages[pageIndex].lines|, k requires 0 <= k < |api.pages[pageIndex].lines| =>
        LineCommand(api.pages[pageIndex].lines[k])))
    else None
  }

  predicate AllDigits(s: string)
  {
    forall i :: 0 <= i < |s| ==> IsDigit(s[i])
  }

  /** A run of digits ended by a '.' splits a string in one way only. */
  lemma DigitRunUnique(a1: string, r1: string, a2: string, r2: string)
    requires AllDigits(a1) && AllDigits(a2) && a1 + "." + r1 == a2 + "." + r2
    ensures a1 == a2 && r1 == r2
  {
    var s := a1 + "." + r1;
    assert s[|a1|] == '.';
    assert (a2 + "." + r2)[|a2|] == '.';
    assert forall i :: 0 <= i < |a2| ==> s[i] == a2[i];
    assert forall i :: 0 <= i < |a1| ==> s[i] == a1[i];
    assert |a1| == |a2|;
    assert a1 == s[..|a1|] == a2;
    assert r1 == s[|a1| + 1..] == r2;
  }

  /** The label names its line's byte range unambiguously: two lines get the
      same text only when they cover the same range. */
  lemma LineLabelInjective(s1: nat, e1: nat, s2: nat, e2: nat)
    requires LineLabel(s1, e1) == LineLabel(s2, e2)
    ensures s1 == s2 && e1 == e2
  {
    var a1, b1 := NatToString(s1), NatToString(e1);
    var a2, b2 := NatToString(s2), NatToString(e2);
    var t1 := a1 + "." + ("." + b1 + "]");
    var t2 := a2 + "." + ("." + b2 + "]");
    assert LineLabel(s1, e1) == "[Text " + t1;
    assert LineLabel(s2, e2) == "[Text " + t2;
    assert t1 == LineLabel(s1, e1)[6..];
    assert t2 == LineLabel(s2, e2)[6..];
    DigitRunUnique(a1, "." + b1 + "]", a2, "." + b2 + "]");
    assert b1 == ("." + b1 + "]")[1..|b1| + 1];
    assert b2 == ("." + b2 + "]")[1..|b2| + 1];
    NatToStringRoundTrip(s1);
    NatToStringRoundTrip(s2);
    NatToStringRoundTrip(e1);
    NatToStringRoundTrip(e2);
  }

  /** Each command's text names its own line's range. */
  lemma RenderPageCommandsLabels(api: SimpleRenderApi, pageIndex: nat, k: nat)
    requires pageIndex < |api.pages| && k < |api.pages[pageIndex].lines|
    ensures RenderPageCommands(api, pageIndex).value[k].text ==
              LineLabel(api.pages[pageIndex].lines[k].start, api.pages[pageIndex].lines[k].end)
  {
  }

  /** `page_images`: no images are tracked per page. */
  function PageImages(api: SimpleRenderApi, pageIndex: nat): (r: seq<Image.RenderedImage>)
    ensures |r| == 0
  {
    []
  }

  /** `export_page_as_png`: no page is ever exported. */
  function ExportPageAsPng(api: SimpleRenderApi, pageIndex: nat, scale: real): (r: Option<seq<Byte>>)
    ensures r.None?
  {
    None
  }
}
