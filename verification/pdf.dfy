// PDF export: string escaping, page sizes, the page layout pass, the
// bookmark hierarchy and resource embedding.

module PdfExport {
  import opened Wrappers
  import opened TextUtil
  import PageLayout
  import Image

  // ---------------------------------------------------------------------
  // String escaping
  // ---------------------------------------------------------------------

  /** The text `escape_pdf_string` writes for one character. */
  function EscapePdfChar(c: char): string
  {
    if c == '\\' then "\\\\"
    else if c == '(' then "\\("
    else if c == ')' then "\\)"
    else if c == '\n' then "\\n"
    else if c == '\r' then "\\r"
    else if c == '\t' then "\\t"
    else [c]
  }

  /** `escape_pdf_string`: the result holds no raw line break or tab, and
      every character costs at least one. */
  function EscapePdfString(s: string): (r: string)
    ensures '\n' !in r && '\r' !in r && '\t' !in r
    ensures |r| >= |s|
  {
    if |s| == 0 then "" else EscapePdfChar(s[0]) + EscapePdfString(s[1..])
  }

  /** A reader for PDF literal-string escapes (section 7.3.4.2 of ISO
      32000-1), restricted to the six escapes the writer produces. */
  function UnescapePdf(s: string): Option<string>
    decreases |s|
  {
    if |s| == 0 then Some("")
    else if s[0] != '\\' then
      match UnescapePdf(s[1..])
      case None => None
      case Some(t) => Some([s[0]] + t)
    else if |s| < 2 then None
    else
      var e := s[1];
      var c := if e == 'n' then '\n' else if e == 'r' then '\r' else if e == 't' then '\t' else e;
      if e == '\\' || e == '(' || e == ')' || e == 'n' || e == 'r' || e == 't' then
        match UnescapePdf(s[2..])
        case None => None
        case Some(t) => Some([c] + t)
      else None
  }

  /** The reader takes one escaped character back off the front. */
  lemma UnescapeAfterChar(c: char, rest: string)
    ensures UnescapePdf(EscapePdfChar(c) + rest) ==
      match UnescapePdf(rest)
      case None => None
      case Some(t) => Some([c] + t)
  {
    var w := EscapePdfChar(c) + rest;
    if |EscapePdfChar(c)| == 2 {
      assert w[2..] == rest;
    } else {
      assert w[1..] == rest;
    }
  }

  /** Escaping is undone by the reader: the string survives unchanged. */
  lemma {:induction false} EscapePdfRoundTrip(s: string)
    ensures UnescapePdf(EscapePdfString(s)) == Some(s)
  {
    if |s| > 0 {
      EscapePdfRoundTrip(s[1..]);
      UnescapeAfterChar(s[0], EscapePdfString(s[1..]));
      assert [s[0]] + s[1..] == s;
    }
  }

  /** The examples the Rust unit tests check. */
  lemma EscapePdfExamples()
    ensures EscapePdfString("(a)") == "\\(a\\)"
    ensures EscapePdfString("a\nb") == "a\\nb"
  {
  }

  // ---------------------------------------------------------------------
  // Configuration
  // ---------------------------------------------------------------------

  datatype PdfPageSize = A4 | Letter | Legal | Custom(width: real, height: real)

  datatype PdfMargins = PdfMargins(top: real, right: real, bottom: real, left: real)

  /** One inch on every side. */
  const DefaultMargins := PdfMargins(72.0, 72.0, 72.0, 72.0)

  datatype PdfConfig = PdfConfig(
    pageSize: PdfPageSize, margins: PdfMargins, embedFonts: bool, compress: bool,
    generateBookmarks: bool, embedImages: bool)

  /** `PdfConfig::default`: A4, one-inch margins, fonts and images embedded,
      bookmarks generated, no compression. */
  const DefaultConfig := PdfConfig(PdfPageSize.A4, DefaultMargins, true, false, true, true)

  const PointsPerInch: real := 72.0

  function MmToPoints(mm: real): real
  {
    mm * PointsPerInch / 25.4
  }

  /** `get_page_dimensions`, in points. */
  function PageDimensions(size: PdfPageSize): (r: (real, real))
    ensures size.Custom? ==> r == (size.width, size.height)
    ensures !size.Custom? ==> 0.0 < r.0 < r.1
  {
    match size
    case A4 => (595.28, 841.89)
    case Letter => (612.0, 792.0)
    case Legal => (612.0, 1008.0)
    case Custom(w, h) => (w, h)
  }

  /** A whole number of hundredths of a point. */
  predicate IsHundredths(x: real)
  {
    (x * 100.0).Floor as real == x * 100.0
  }

  /** The standard sizes agree with their paper: A4 is 210 mm by 297 mm
      rounded to the nearest hundredth of a point, Letter and Legal are 8.5
      inches wide and 11 and 14 inches tall. */
  lemma StandardPageSizes()
    ensures IsHundredths(PageDimensions(PdfPageSize.A4).0) && -0.005 < PageDimensions(PdfPageSize.A4).0 - MmToPoints(210.0) < 0.005
    ensures IsHundredths(PageDimensions(PdfPageSize.A4).1) && -0.005 < PageDimensions(PdfPageSize.A4).1 - MmToPoints(297.0) < 0.005
    ensures PageDimensions(PdfPageSize.Letter) == (8.5 * PointsPerInch, 11.0 * PointsPerInch)
    ensures PageDimensions(PdfPageSize.Legal) == (8.5 * PointsPerInch, 14.0 * PointsPerInch)
  {
  }

  // ---------------------------------------------------------------------
  // Bookmarks
  // ---------------------------------------------------------------------

  datatype Bookmark = Bookmark(title: string, level: nat, page: nat, yOffset: real, parent: Option<nat>, children: seq<nat>)

  /** `add_bookmark`: a new top-level bookmark with no children, appended. */
  function AddBookmark(bs: seq<Bookmark>, title: string, page: nat, yOffset: real, level: nat): (r: seq<Bookmark>)
    ensures |r| == |bs| + 1 && r[..|bs|] == bs
    ensures r[|bs|].parent.None? && r[|bs|].children == []
    ensures r[|bs|].title == title && r[|bs|].level == level && r[|bs|].page == page
  {
    bs + [Bookmark(title, level, page, yOffset, None, [])]
  }

  function Levels(bs: seq<Bookmark>): (r: seq<nat>)
    ensures |r| == |bs| && forall i :: 0 <= i < |bs| ==> r[i] == bs[i].level
  {
    if |bs| == 0 then [] else [bs[0].level] + Levels(bs[1..])
  }

  /** Which stack discipline assigns parents: the one the Rust code writes, or
      the one that makes each bookmark the child of the nearest earlier,
      shallower one. */
  datatype PopRule = AsWritten | Corrected

  /** Whether the stack top, of level `top`, is popped before a bookmark of
      level `cur` is placed.  As written, a top is popped when the new
      bookmark is DEEPER than it. */
  predicate Pops(rule: PopRule, top: nat, cur: nat)
  {
    match rule
    case AsWritten => cur > top
    case Corrected => top >= cur
  }

  /** Every entry of `stack` is below `n`. */
  predicate Below(stack: seq<nat>, n: nat)
  {
    forall t :: 0 <= t < |stack| ==> stack[t] < n
  }

  /** The parent a bookmark gets from the stack: its top, if any. */
  function TopOf(st: seq<nat>): Option<nat>
  {
    if |st| > 0 then Some(st[|st| - 1]) else None
  }

  function PopStack(levels: seq<nat>, stack: seq<nat>, cur: nat, rule: PopRule): (r: seq<nat>)
    requires Below(stack, |levels|)
    ensures |r| <= |stack| && r == stack[..|r|]
  {
    if |stack| == 0 then stack
    else if Pops(rule, levels[stack[|stack| - 1]], cur) then PopStack(levels, stack[..|stack| - 1], cur, rule)
    else stack
  }

  /** The first loop of `process_bookmarks`, from bookmark `idx` on, with
      the stack and the parents found so far. */
  function ScanParents(levels: seq<nat>, rule: PopRule, idx: nat, stack: seq<nat>, parents: seq<Option<nat>>): (r: seq<Option<nat>>)
    requires idx <= |levels| && |parents| == idx
    requires Below(stack, idx)
    requires forall i :: 0 <= i < idx ==> parents[i].Some? ==> parents[i].value < i
    ensures |r| == |levels| && r[..idx] == parents
    ensures forall i :: 0 <= i < |levels| ==> r[i].Some? ==> r[i].value < i
    decreases |levels| - idx
  {
    if idx == |levels| then parents
    else
      var st := PopStack(levels, stack, levels[idx], rule);
      assert Below(st, idx) by {
        forall t | 0 <= t < |st|
          ensures st[t] < idx
        {
          assert st[t] == stack[t];
        }
      }
      ScanParents(levels, rule, idx + 1, st + [idx], parents + [TopOf(st)])
  }

  /** The parent each bookmark is given; always an earlier bookmark. */
  function ParentMap(levels: seq<nat>, rule: PopRule): (r: seq<Option<nat>>)
    ensures |r| == |levels|
    ensures forall i :: 0 <= i < |levels| ==> r[i].Some? ==> r[i].value < i
  {
    ScanParents(levels, rule, 0, [], [])
  }

  /** The reference: `p` is the nearest earlier bookmark of a smaller level
      than bookmark `i`, or `None` when no earlier bookmark is shallower. */
  predicate NearestShallower(levels: seq<nat>, i: nat, p: Option<nat>)
    requires i < |levels|
  {
    match p
    case Some(j) => j < i && levels[j] < levels[i] && forall k :: j < k < i ==> levels[k] >= levels[i]
    case None => forall k :: 0 <= k < i ==> levels[k] >= levels[i]
  }

  /** Bookmark `j` is shallower than every bookmark after it before `idx`. */
  predicate Dominates(levels: seq<nat>, j: nat, idx: nat)
    requires j < idx <= |levels|
  {
    forall k :: j < k < idx ==> levels[k] > levels[j]
  }

  /** The corrected stack before bookmark `idx`: in increasing order, and
      holding exactly the bookmarks shallower than all that follow them. */
  predicate StackInv(levels: seq<nat>, idx: nat, stack: seq<nat>)
    requires idx <= |levels|
  {
    && Below(stack, idx)
    && (forall s, t :: 0 <= s < t < |stack| ==> stack[s] < stack[t])
    && (forall j :: 0 <= j < idx ==> (j in stack <==> Dominates(levels, j, idx)))
  }

  /** The stack's levels strictly increase from bottom to top. */
  predicate Increasing(levels: seq<nat>, stack: seq<nat>)
    requires Below(stack, |levels|)
  {
    forall s, t :: 0 <= s < t < |stack| ==> levels[stack[s]] < levels[stack[t]]
  }

  lemma StackInvIncreasing(levels: seq<nat>, idx: nat, stack: seq<nat>)
    requires idx <= |levels| && StackInv(levels, idx, stack)
    ensures Below(stack, |levels|) && Increasing(levels, stack)
  {
    forall s, t | 0 <= s < t < |stack|
      ensures levels[stack[s]] < levels[stack[t]]
    {
      assert stack[s] in stack;
      assert Dominates(levels, stack[s], idx);
    }
  }

  /** Popping an increasing stack keeps exactly the entries shallower than
      the new bookmark, which form a prefix. */
  lemma {:induction false} PopCorrected(levels: seq<nat>, stack: seq<nat>, cur: nat)
    requires Below(stack, |levels|) && Increasing(levels, stack)
    ensures var r := PopStack(levels, stack, cur, Corrected);
      forall t :: 0 <= t < |stack| ==> (t < |r| <==> levels[stack[t]] < cur)
  {
    if |stack| > 0 {
      var top := stack[|stack| - 1];
      var init := stack[..|stack| - 1];
      if levels[top] >= cur {
        PopCorrected(levels, init, cur);
        assert forall t :: 0 <= t < |init| ==> init[t] == stack[t];
      } else {
        forall t | 0 <= t < |stack| - 1
          ensures levels[stack[t]] < cur
        {
          assert levels[stack[t]] < levels[stack[|stack| - 1]];
        }
      }
    }
  }

  /** Every bookmark before `idx` has a stack entry at or after it that is
      no deeper. */
  lemma {:induction false} StackCovers(levels: seq<nat>, idx: nat, stack: seq<nat>, k: nat)
    requires idx <= |levels| && StackInv(levels, idx, stack)
    requires k < idx
    ensures exists t :: 0 <= t < |stack| && k <= stack[t] && levels[stack[t]] <= levels[k]
    decreases idx - k
  {
    if k in stack {
      var t :| 0 <= t < |stack| && stack[t] == k;
      assert levels[stack[t]] <= levels[k];
    } else {
      assert !Dominates(levels, k, idx);
      var k2 :| k < k2 < idx && levels[k2] <= levels[k];
      StackCovers(levels, idx, stack, k2);
    }
  }

  /** After popping, the top of the stack is the nearest earlier bookmark
      shallower than the new one. */
  lemma PopNearest(levels: seq<nat>, idx: nat, stack: seq<nat>)
    requires idx < |levels| && StackInv(levels, idx, stack)
    ensures NearestShallower(levels, idx, TopOf(PopStack(levels, stack, levels[idx], Corrected)))
  {
    StackInvIncreasing(levels, idx, stack);
    var cur := levels[idx];
    var st := PopStack(levels, stack, cur, Corrected);
    PopCorrected(levels, stack, cur);
    forall k | 0 <= k < idx && levels[k] < cur
      ensures |st| > 0 && k <= st[|st| - 1]
    {
      StackCovers(levels, idx, stack, k);
      var t :| 0 <= t < |stack| && k <= stack[t] && levels[stack[t]] <= levels[k];
      assert t < |st|;
      if t < |st| - 1 {
        assert stack[t] < stack[|st| - 1];
      }
      assert st[|st| - 1] == stack[|st| - 1];
    }
    if |st| > 0 {
      assert st[|st| - 1] == stack[|st| - 1];
    }
  }

  lemma DominatesStep(levels: seq<nat>, j: nat, idx: nat)
    requires j < idx < |levels|
    ensures Dominates(levels, j, idx + 1) <==> Dominates(levels, j, idx) && levels[idx] > levels[j]
  {
  }

  /** Pushing the new bookmark after popping keeps the stack invariant. */
  lemma PushInv(levels: seq<nat>, idx: nat, stack: seq<nat>)
    requires idx < |levels| && StackInv(levels, idx, stack)
    ensures StackInv(levels, idx + 1, PopStack(levels, stack, levels[idx], Corrected) + [idx])
  {
    StackInvIncreasing(levels, idx, stack);
    var cur := levels[idx];
    var st := PopStack(levels, stack, cur, Corrected);
    PopCorrected(levels, stack, cur);
    var next := st + [idx];
    assert forall t :: 0 <= t < |st| ==> next[t] == stack[t];
    forall j | 0 <= j < idx
      ensures j in next <==> Dominates(levels, j, idx + 1)
    {
      DominatesStep(levels, j, idx);
      if j in stack {
        var t :| 0 <= t < |stack| && stack[t] == j;
        if t < |st| {
          assert st[t] == j;
        } else {
          forall u | 0 <= u < |st|
            ensures st[u] != j
          {
            assert stack[u] < stack[t];
          }
        }
        assert j in next <==> t < |st|;
      } else {
        assert j !in st;
      }
    }
    assert next[|next| - 1] == idx;
  }

  lemma {:induction false} ScanCorrect(levels: seq<nat>, idx: nat, stack: seq<nat>, parents: seq<Option<nat>>)
    requires idx <= |levels| && |parents| == idx
    requires StackInv(levels, idx, stack)
    requires forall i :: 0 <= i < idx ==> parents[i].Some? ==> parents[i].value < i
    requires forall i :: 0 <= i < idx ==> NearestShallower(levels, i, parents[i])
    ensures forall i :: 0 <= i < |levels| ==> NearestShallower(levels, i, ScanParents(levels, Corrected, idx, stack, parents)[i])
    decreases |levels| - idx
  {
    if idx < |levels| {
      PopNearest(levels, idx, stack);
      PushInv(levels, idx, stack);
      var st := PopStack(levels, stack, levels[idx], Corrected);
      var parents' := parents + [TopOf(st)];
      assert forall i :: 0 <= i < idx ==> parents'[i] == parents[i];
      ScanCorrect(levels, idx + 1, st + [idx], parents');
      var r := ScanParents(levels, Corrected, idx + 1, st + [idx], parents');
      assert ScanParents(levels, Corrected, idx, stack, parents) == r;
      forall i | 0 <= i < |levels|
        ensures NearestShallower(levels, i, r[i])
      {
      }
    }
  }

  /** The corrected parent map gives every bookmark its nearest earlier
      shallower bookmark. */
  lemma ParentMapIsNearestShallower(levels: seq<nat>)
    ensures forall i :: 0 <= i < |levels| ==> NearestShallower(levels, i, ParentMap(levels, Corrected)[i])
  {
    ScanCorrect(levels, 0, [], []);
  }

  /** The bookmarks `i < n` whose parent is `p`, in increasing order: the
      order in which the second loop pushes them. */
  function ChildrenOf(parents: seq<Option<nat>>, p: nat, n: nat): (r: seq<nat>)
    requires n <= |parents|
    ensures forall t :: 0 <= t < |r| ==> r[t] < n
    ensures forall i :: i in r <==> 0 <= i < n && parents[i] == Some(p)
    ensures forall s, t :: 0 <= s < t < |r| ==> r[s] < r[t]
  {
    if n == 0 then []
    else
      var r := ChildrenOf(parents, p, n - 1);
      if parents[n - 1] == Some(p) then r + [n - 1] else r
  }

  /** The second loop of `process_bookmarks`: a bookmark with a parent gets
      it (one without keeps what it had) and is appended to the parent's
      children. */
  function ApplyParents(bs: seq<Bookmark>, parents: seq<Option<nat>>): (r: seq<Bookmark>)
    requires |parents| == |bs|
    ensures |r| == |bs|
    ensures forall i :: 0 <= i < |bs| ==>
      && r[i].parent == (if parents[i].Some? then parents[i] else bs[i].parent)
      && r[i].children == bs[i].children + ChildrenOf(parents, i, |bs|)
      && r[i].level == bs[i].level && r[i].title == bs[i].title
  {
    seq(|bs|, i requires 0 <= i < |bs| =>
      bs[i].(parent := if parents[i].Some? then parents[i] else bs[i].parent,
             children := bs[i].children + ChildrenOf(parents, i, |bs|)))
  }

  /** `process_bookmarks` under the given stack discipline. */
  function ProcessBookmarksWith(bs: seq<Bookmark>, rule: PopRule): (r: seq<Bookmark>)
    ensures |r| == |bs|
    ensures forall i :: 0 <= i < |bs| ==> r[i].title == bs[i].title && r[i].level == bs[i].level
    ensures forall i :: 0 <= i < |bs| && bs[i].parent.None? && r[i].parent.Some? ==> r[i].parent.value < i
  {
    ApplyParents(bs, ParentMap(Levels(bs), rule))
  }

  /** Bookmarks as `add_bookmark` leaves them: no parent, no children. */
  predicate Fresh(bs: seq<Bookmark>)
  {
    forall i :: 0 <= i < |bs| ==> bs[i].parent.None? && bs[i].children == []
  }

  /** Under either discipline: every parent comes earlier, and a bookmark is
      among a parent's children exactly when that parent was assigned to it. */
  lemma ProcessedIsTree(bs: seq<Bookmark>, rule: PopRule)
    requires Fresh(bs)
    ensures var r := ProcessBookmarksWith(bs, rule);
      && |r| == |bs|
      && (forall i :: 0 <= i < |r| ==> r[i].parent.Some? ==> r[i].parent.value < i)
      && (forall i, p :: 0 <= i < |r| && 0 <= p < |r| ==> (i in r[p].children <==> r[i].parent == Some(p)))
  {
  }

  /** The corrected `process_bookmarks`: the tree above, with each parent the
      nearest earlier shallower bookmark. */
  function ProcessBookmarksCorrected(bs: seq<Bookmark>): (r: seq<Bookmark>)
    requires Fresh(bs)
    ensures |r| == |bs|
    ensures forall i :: 0 <= i < |bs| ==> NearestShallower(Levels(bs), i, r[i].parent)
    ensures forall i, p :: 0 <= i < |r| && 0 <= p < |r| ==> (i in r[p].children <==> r[i].parent == Some(p))
  {
    ParentMapIsNearestShallower(Levels(bs));
    ProcessedIsTree(bs, Corrected);
    ProcessBookmarksWith(bs, Corrected)
  }

  /** As written, two chapters of the same level come out nested: the
      second is made a child of the first, although neither is shallower. */
  lemma SiblingsNested()
    ensures var bs := [Bookmark("Chapter 1", 1, 0, 100.0, None, []), Bookmark("Chapter 2", 1, 0, 200.0, None, [])];
      && ProcessBookmarksWith(bs, AsWritten)[1].parent == Some(0)
      && !NearestShallower(Levels(bs), 1, Some(0))
  {
    var bs := [Bookmark("Chapter 1", 1, 0, 100.0, None, []), Bookmark("Chapter 2", 1, 0, 200.0, None, [])];
    var levels := Levels(bs);
    assert levels == [1, 1];
    assert PopStack(levels, [], 1, AsWritten) == [];
    assert ScanParents(levels, AsWritten, 0, [], []) == ScanParents(levels, AsWritten, 1, [0], [None]);
    assert PopStack(levels, [0], 1, AsWritten) == [0];
    assert ScanParents(levels, AsWritten, 1, [0], [None]) == ScanParents(levels, AsWritten, 2, [0, 1], [None, Some(0)]);
  }

  /** As written, a section directly after its chapter is left without a
      parent: the chapter is popped because the section is deeper. */
  lemma SectionOrphaned()
    ensures ParentMap([1, 2], AsWritten)[1] == None
    ensures NearestShallower([1, 2], 1, Some(0))
  {
    var levels: seq<nat> := [1, 2];
    assert PopStack(levels, [], 1, AsWritten) == [];
    assert ScanParents(levels, AsWritten, 0, [], []) == ScanParents(levels, AsWritten, 1, [0], [None]);
    assert PopStack(levels, [0], 2, AsWritten) == [];
    assert ScanParents(levels, AsWritten, 1, [0], [None]) == ScanParents(levels, AsWritten, 2, [1], [None, None]);
  }

  // ---------------------------------------------------------------------
  // Pages
  // ---------------------------------------------------------------------

  datatype Color = Color(r: nat, g: nat, b: nat, a: nat)

  const Black := Color(0, 0, 0, 255)

  datatype TextElement = TextElement(
    x: real, y: real, content: string, fontName: string, fontSize: real, color: Color,
    isBold: bool, isItalic: bool, isUnderline: bool)

  /** A PDF page; its image, rectangle and link lists and its resources are
      always empty after layout and are not modelled. */
  datatype PdfPage = PdfPage(width: real, height: real, textElements: seq<TextElement>)

  const PlaceholderOpen := "[Text bytes "

  /** The stand-in text for a line's byte range. */
  function Placeholder(start: nat, end: nat): string
  {
    PlaceholderOpen + (NatToString(start) + ("." + ("." + (NatToString(end) + "]"))))
  }

  predicate AllDigits(s: string)
  {
    forall i :: 0 <= i < |s| ==> IsDigit(s[i])
  }

  /** A reader for the stand-in text, the partner of `Placeholder`. */
  function ParsePlaceholder(s: string): Option<(nat, nat)>
  {
    match AfterPrefix(s, PlaceholderOpen)
    case None => None
    case Some(s1) =>
      match SplitAt(s1, '.')
      case None => None
      case Some(a) =>
        match AfterPrefix(a.1, ".")
        case None => None
        case Some(s2) =>
          match SplitAt(s2, ']')
          case None => None
          case Some(b) =>
            if b.1 == "" && AllDigits(a.0) && AllDigits(b.0) then Some((DigitsValue(a.0), DigitsValue(b.0))) else None
  }

  lemma PlaceholderRoundTrip(start: nat, end: nat)
    ensures ParsePlaceholder(Placeholder(start, end)) == Some((start, end))
  {
    var a := NatToString(start);
    var b := NatToString(end);
    AfterPrefixOf(PlaceholderOpen, a + ("." + ("." + (b + "]"))));
    assert '.' !in a;
    assert ']' !in b;
    SplitAtOf(a, '.', "." + (b + "]"));
    AfterPrefixOf(".", b + "]");
    SplitAtOf(b, ']', "");
    assert b + "]" == b + ([']'] + "");
    NatToStringRoundTrip(start);
    NatToStringRoundTrip(end);
  }

  /** One text element per rendered line, at the margins plus the line's
      position, in the default font. */
  function LayoutLine(line: PageLayout.RenderedLine, margins: PdfMargins): TextElement
  {
    TextElement(margins.left + line.x, margins.top + line.y, Placeholder(line.start, line.end),
                "DefaultFont", 12.0, Black, false, false, false)
  }

  /** `layout_page`. */
  function LayoutPage(page: PageLayout.RenderedPage, width: real, height: real, margins: PdfMargins): (r: PdfPage)
    ensures r.width == width && r.height == height
    ensures |r.textElements| == |page.lines|
  {
    PdfPage(width, height, seq(|page.lines|, i requires 0 <= i < |page.lines| => LayoutLine(page.lines[i], margins)))
  }

  /** Each element of a laid-out page sits at the margin offset of its line
      and names that line's byte range. */
  lemma LayoutPageLines(page: PageLayout.RenderedPage, width: real, height: real, margins: PdfMargins)
    ensures var r := LayoutPage(page, width, height, margins);
      forall i :: 0 <= i < |page.lines| ==>
        && r.textElements[i].x - margins.left == page.lines[i].x
        && r.textElements[i].y - margins.top == page.lines[i].y
        && ParsePlaceholder(r.textElements[i].content) == Some((page.lines[i].start, page.lines[i].end))
  {
    var r := LayoutPage(page, width, height, margins);
    forall i | 0 <= i < |page.lines|
      ensures ParsePlaceholder(r.textElements[i].content) == Some((page.lines[i].start, page.lines[i].end))
    {
      PlaceholderRoundTrip(page.lines[i].start, page.lines[i].end);
    }
  }

  // ---------------------------------------------------------------------
  // The exporter
  // ---------------------------------------------------------------------

  datatype EmbeddedFont = EmbeddedFont(name: string, family: string, data: seq<Byte>, subset: bool)

  datatype PdfImageFormat = Jpeg | Png | Raw

  datatype EmbeddedImage = EmbeddedImage(id: string, format: PdfImageFormat, data: seq<Byte>, width: nat, height: nat)

  datatype Exporter = Exporter(
    config: PdfConfig,
    document: seq<PageLayout.RenderedPage>,
    fonts: map<string, EmbeddedFont>,
    images: map<string, EmbeddedImage>,
    bookmarks: seq<Bookmark>,
    pages: seq<PdfPage>)

  /** `PdfExporter::new`: nothing embedded, no bookmarks, no pages. */
  function NewExporter(config: PdfConfig, document: seq<PageLayout.RenderedPage>): Exporter
  {
    Exporter(config, document, map[], map[], [], [])
  }

  /** `add_bookmark` on the exporter. */
  function AddExporterBookmark(e: Exporter, title: string, page: nat, yOffset: real, level: nat): (r: Exporter)
    ensures r.bookmarks == AddBookmark(e.bookmarks, title, page, yOffset, level)
    ensures r.(bookmarks := e.bookmarks) == e
  {
    e.(bookmarks := AddBookmark(e.bookmarks, title, page, yOffset, level))
  }

  /** `layout_pages`: pages and bookmarks are cleared, one page is laid out
      per rendered page, and the (now empty) bookmark list is processed. */
  function LayoutPages(e: Exporter): (r: Exporter)
    ensures |r.pages| == |e.document| && r.bookmarks == []
    ensures forall i :: 0 <= i < |r.pages| ==> (r.pages[i].width, r.pages[i].height) == PageDimensions(e.config.pageSize)
    ensures r.config == e.config && r.document == e.document
  {
    var dims := PageDimensions(e.config.pageSize);
    var pages := seq(|e.document|, i requires 0 <= i < |e.document| =>
                       LayoutPage(e.document[i], dims.0, dims.1, e.config.margins));
    e.(pages := pages, bookmarks := if e.config.generateBookmarks then ProcessBookmarksWith([], AsWritten) else [])
  }

  /** After layout there is one page per rendered page, all of the
      configured size, and no bookmarks: any added before are lost. */
  lemma LayoutPagesShape(e: Exporter)
    ensures var r := LayoutPages(e);
      && |r.pages| == |e.document|
      && (forall i :: 0 <= i < |r.pages| ==> (r.pages[i].width, r.pages[i].height) == PageDimensions(e.config.pageSize))
      && r.bookmarks == []
  {
  }

  /** `embed_font`: a no-op when font embedding is off; otherwise the font is
      stored under its name, its family the same name, not subset. */
  function EmbedFont(e: Exporter, name: string, data: seq<Byte>): (r: Exporter)
    ensures !e.config.embedFonts ==> r == e
    ensures e.config.embedFonts ==> name in r.fonts && r.fonts[name] == EmbeddedFont(name, name, data, false)
    ensures forall k :: k != name ==> (k in r.fonts <==> k in e.fonts) && (k in e.fonts ==> r.fonts[k] == e.fonts[k])
    ensures r.(fonts := e.fonts) == e
  {
    if e.config.embedFonts then e.(fonts := e.fonts[name := EmbeddedFont(name, name, data, false)]) else e
  }

  /** The PDF image format for a decoded image: JPEG and PNG are passed
      through, everything else is embedded raw. */
  function PdfFormat(f: Image.ImageFormat): (r: PdfImageFormat)
    ensures r == PdfImageFormat.Jpeg <==> f == Image.ImageFormat.Jpeg
    ensures r == PdfImageFormat.Png <==> f == Image.ImageFormat.Png
  {
    match f
    case Jpeg => PdfImageFormat.Jpeg
    case Png => PdfImageFormat.Png
    case _ => PdfImageFormat.Raw
  }

  /** A float-to-`u32` cast of a whole number: saturates at the top. */
  function SaturateU32(n: nat): (r: nat)
    ensures r < 0x1_0000_0000
    ensures n < 0x1_0000_0000 ==> r == n
  {
    if n < 0x1_0000_0000 then n else 0xFFFF_FFFF
  }

  /** `embed_image`: a no-op when image embedding is off; otherwise the image
      is stored under its id. */
  function EmbedImage(e: Exporter, id: string, image: Image.ImageData): (r: Exporter)
    ensures !e.config.embedImages ==> r == e
    ensures e.config.embedImages ==>
      (id in r.images && r.images[id].format == PdfFormat(image.format) && r.images[id].data == image.data)
    ensures forall k :: k != id ==> (k in r.images <==> k in e.images) && (k in e.images ==> r.images[k] == e.images[k])
    ensures r.(images := e.images) == e
  {
    if e.config.embedImages then
      e.(images := e.images[id := EmbeddedImage(id, PdfFormat(image.format), image.data,
                                                 SaturateU32(image.dimensions.width), SaturateU32(image.dimensions.height))])
    else e
  }
}
