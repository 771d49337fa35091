/**
 * Table of contents (`toc.rs`): the builder that collects paragraphs,
 * decides each paragraph's outline level, and builds the entry list in
 * document order.  The page a paragraph lands on is computed in the
 * Rust code from `f32` heights; here it is carried by the paragraph itself.
 */
module Toc {
  import opened Wrappers
  import opened TextUtil

  datatype TabLeader = NoLeader | Dots | Dashes | Underline | ThickLine

  datatype TocEntry = TocEntry(
    level: nat,
    text: string,
    pageNumber: nat,
    targetOffset: nat,
    hyperlink: Option<string>,
    styleId: Option<string>,
    charIndex: nat)

  datatype TocStyle = TocStyle(
    showLevels: nat,
    includePageNumbers: bool,
    hyperlinkEntries: bool,
    tabLeader: TabLeader,
    title: string,
    hidePageNumbersForWeb: bool,
    useDocumentOutline: bool)

  const DefaultStyle := TocStyle(3, true, true, Dots, "Table of Contents", false, true)

  // ---------------------------------------------------------------
  // Level styles
  // ---------------------------------------------------------------

  datatype LevelStyle = LevelStyle(
    level: nat,
    paragraphStyle: string,
    textStyle: string,
    indentPoints: real,
    fontSize: Option<real>,
    bold: bool,
    italic: bool,
    color: Option<string>)

  /** The paragraph style `Heading{n}`. */
  function HeadingStyle(n: nat): string
  {
    "Heading" + NatToString(n)
  }

  function Min(a: nat, b: nat): nat
  {
    if a <= b then a else b
  }

  /**
   * `TocLevelStyle::new` as written: the font size is
   * `12 + (4 - level.min(9))` with the subtraction in `u32`, which
   * overflows (a panic) for every level above 4.
   */
  function LevelStyleAsWritten(level: nat): (r: Option<LevelStyle>)
    ensures r.Some? <==> level <= 4
  {
    if Min(level, 9) > 4 then None
    else Some(LevelStyle(level, HeadingStyle(level), HeadingStyle(level) + "Char", level as real * 720.0,
                         Some(12.0 + (4 - Min(level, 9)) as real), level == 1, false, None))
  }

  /** Level 5 already overflows. */
  lemma LevelStyleAsWrittenOverflows()
    ensures LevelStyleAsWritten(5).None? && LevelStyleAsWritten(4).Some?
  {
  }

  /**
   * `TocLevelStyle::new` with the font size computed as a signed
   * difference: one point smaller for every level, `16 - level` for
   * levels up to 9.
   */
  function NewLevelStyle(level: nat): (r: LevelStyle)
    ensures r.fontSize.Some? && r.fontSize.value >= 7.0
  {
    LevelStyle(level, HeadingStyle(level), HeadingStyle(level) + "Char", level as real * 720.0,
               Some((16 - Min(level, 9)) as real), level == 1, false, None)
  }

  /**
   * A level style names `Heading{n}` and `Heading{n}Char`, is bold only
   * for level 1, is indented 720 points per level, and grows one point
   * smaller per level; where the Rust code does not overflow the two agree.
   */
  lemma NewLevelStyleShape(level: nat)
    ensures NewLevelStyle(level).paragraphStyle == HeadingStyle(level)
    ensures NewLevelStyle(level).textStyle == NewLevelStyle(level).paragraphStyle + "Char"
    ensures NewLevelStyle(level).bold <==> level == 1
    ensures NewLevelStyle(level).indentPoints == 720.0 * level as real
    ensures 1 <= level <= 9 ==> NewLevelStyle(level).fontSize == Some(16.0 - level as real)
    ensures level <= 8 ==> NewLevelStyle(level).fontSize.value > NewLevelStyle(level + 1).fontSize.value
    ensures LevelStyleAsWritten(level).Some? ==> LevelStyleAsWritten(level) == Some(NewLevelStyle(level))
  {
  }

  /** The level 1 style of the Rust unit test: `Heading1`, `Heading1Char`, 720 points, 15 points, bold. */
  lemma NewLevelStyleFirst()
    ensures NewLevelStyle(1).paragraphStyle == "Heading1" && NewLevelStyle(1).textStyle == "Heading1Char"
    ensures NewLevelStyle(1).fontSize == Some(15.0) && NewLevelStyle(1).bold
  {
    assert NatToString(1) == "1";
  }

  // ---------------------------------------------------------------
  // The builder
  // ---------------------------------------------------------------

  /**
   * A paragraph handed to the builder.  `page` is the page the Rust code's
   * `calculate_page` assigns to it.
   */
  datatype DocumentEntry = DocumentEntry(
    text: string,
    offset: nat,
    charIndex: nat,
    styleId: Option<string>,
    outlineLevel: Option<nat>,
    isHeading: bool,
    page: nat)

  datatype Builder = Builder(
    style: TocStyle,
    documentEntries: seq<DocumentEntry>,
    entries: seq<TocEntry>,
    styleToLevel: map<string, nat>,
    currentOffset: nat)

  datatype TocResult = TocResult(entries: seq<TocEntry>, totalPages: nat, success: bool, errorMessage: Option<string>)

  const EmptyDocumentMessage := "No document entries to build TOC from"

  function NewBuilder(): Builder
  {
    Builder(DefaultStyle, [], [], map[], 0)
  }

  function WithStyle(style: TocStyle): Builder
  {
    Builder(style, [], [], map[], 0)
  }

  /** Every mapped style names a level from 1 to 9. */
  predicate LevelsValid(b: Builder)
  {
    forall s | s in b.styleToLevel :: 1 <= b.styleToLevel[s] <= 9
  }

  /** Paragraph offsets strictly increase and all lie before the next one to come. */
  predicate OffsetsOrdered(b: Builder)
  {
    Ascending(b.documentEntries)
    && (forall i | 0 <= i < |b.documentEntries| :: b.documentEntries[i].offset < b.currentOffset)
  }

  predicate Valid(b: Builder)
  {
    LevelsValid(b) && OffsetsOrdered(b)
  }

  lemma NewBuilderValid()
    ensures Valid(NewBuilder())
    ensures forall style :: Valid(WithStyle(style))
  {
  }

  /** `add_style_level_mapping`: levels outside 1..9 are ignored. */
  function AddStyleLevelMapping(b: Builder, styleId: string, level: nat): (r: Builder)
    ensures LevelsValid(b) ==> LevelsValid(r)
    ensures 1 <= level <= 9 ==> styleId in r.styleToLevel && r.styleToLevel[styleId] == level
    ensures forall s | s != styleId :: (s in r.styleToLevel <==> s in b.styleToLevel)
    ensures forall s | s != styleId && s in r.styleToLevel :: r.styleToLevel[s] == b.styleToLevel[s]
    ensures level == 0 || level > 9 ==> r == b
    ensures r.documentEntries == b.documentEntries && r.currentOffset == b.currentOffset
  {
    if level == 0 || level > 9 then b
    else b.(styleToLevel := b.styleToLevel[styleId := level])
  }

  /** `add_entry`. */
  function AddEntry(b: Builder, entry: DocumentEntry): (r: Builder)
    ensures r.documentEntries == b.documentEntries + [entry]
  {
    b.(documentEntries := b.documentEntries + [entry])
  }

  /** The outline level the style map gives a paragraph style, if any. */
  function MappedLevel(b: Builder, styleId: Option<string>): Option<nat>
  {
    if styleId.Some? && styleId.value in b.styleToLevel then Some(b.styleToLevel[styleId.value]) else None
  }

  /**
   * `add_paragraph`: the paragraph starts at the current offset, which
   * then moves past its UTF-8 bytes and a newline.
   */
  function AddParagraph(b: Builder, text: string, styleId: Option<string>, page: nat): (r: Builder)
    ensures |r.documentEntries| == |b.documentEntries| + 1
    ensures r.documentEntries[..|b.documentEntries|] == b.documentEntries
    ensures r.documentEntries[|b.documentEntries|].offset == b.currentOffset
    ensures r.documentEntries[|b.documentEntries|].text == text
    ensures r.documentEntries[|b.documentEntries|].outlineLevel == MappedLevel(b, styleId)
    ensures r.currentOffset == b.currentOffset + Utf8Len(text) + 1
    ensures r.style == b.style && r.styleToLevel == b.styleToLevel
  {
    var entry := DocumentEntry(text, b.currentOffset, b.currentOffset, styleId, MappedLevel(b, styleId),
                               styleId.Some? && StartsWith(styleId.value, "Heading"), page);
    b.(documentEntries := b.documentEntries + [entry], currentOffset := b.currentOffset + Utf8Len(text) + 1)
  }

  lemma AddParagraphKeepsValid(b: Builder, text: string, styleId: Option<string>, page: nat)
    requires Valid(b)
    ensures Valid(AddParagraph(b, text, styleId, page))
  {
  }

  datatype Paragraph = Paragraph(text: string, styleId: Option<string>, page: nat)

  /** `add_paragraphs`: one `add_paragraph` per item, in order. */
  function AddParagraphs(b: Builder, ps: seq<Paragraph>): (r: Builder)
    ensures |r.documentEntries| == |b.documentEntries| + |ps|
    decreases |ps|
  {
    if |ps| == 0 then b
    else AddParagraphs(AddParagraph(b, ps[0].text, ps[0].styleId, ps[0].page), ps[1..])
  }

  /** The bytes the first `k` paragraphs take, a newline after each. */
  function Span(ps: seq<Paragraph>, k: nat): nat
    requires k <= |ps|
  {
    if k == 0 then 0 else Span(ps, k - 1) + Utf8Len(ps[k - 1].text) + 1
  }

  lemma SpanTail(ps: seq<Paragraph>, k: nat)
    requires 1 <= k <= |ps|
    ensures Span(ps, k) == Utf8Len(ps[0].text) + 1 + Span(ps[1..], k - 1)
  {
    if k > 1 {
      SpanTail(ps, k - 1);
    }
  }

  /** Adding paragraphs keeps those already there and moves the offset past all the new ones. */
  lemma {:induction false} AddParagraphsPrefix(b: Builder, ps: seq<Paragraph>)
    ensures AddParagraphs(b, ps).documentEntries[..|b.documentEntries|] == b.documentEntries
    ensures AddParagraphs(b, ps).currentOffset == b.currentOffset + Span(ps, |ps|)
    ensures AddParagraphs(b, ps).styleToLevel == b.styleToLevel
    decreases |ps|
  {
    if |ps| > 0 {
      var b' := AddParagraph(b, ps[0].text, ps[0].styleId, ps[0].page);
      AddParagraphsPrefix(b', ps[1..]);
      SpanTail(ps, |ps|);
      var r := AddParagraphs(b', ps[1..]);
      assert r.documentEntries[..|b.documentEntries|] == r.documentEntries[..|b'.documentEntries|][..|b.documentEntries|];
    }
  }

  /**
   * Adding paragraphs one after another lays them out back to back: the
   * `k`-th new paragraph starts after the bytes (and newlines) of those
   * before it and keeps its text.
   */
  lemma {:induction false} AddParagraphsOffsets(b: Builder, ps: seq<Paragraph>, k: nat)
    requires k < |ps|
    ensures AddParagraphs(b, ps).documentEntries[|b.documentEntries| + k].offset == b.currentOffset + Span(ps, k)
    ensures AddParagraphs(b, ps).documentEntries[|b.documentEntries| + k].text == ps[k].text
    decreases |ps|
  {
    var b' := AddParagraph(b, ps[0].text, ps[0].styleId, ps[0].page);
    var r := AddParagraphs(b', ps[1..]);
    if k == 0 {
      AddParagraphsPrefix(b', ps[1..]);
      assert r.documentEntries[|b.documentEntries|] == r.documentEntries[..|b'.documentEntries|][|b.documentEntries|];
    } else {
      AddParagraphsOffsets(b', ps[1..], k - 1);
      SpanTail(ps, k);
      assert ps[1..][k - 1] == ps[k];
    }
  }

  /** `clear`: paragraphs and entries go, the offset restarts; style and style map stay. */
  function Clear(b: Builder): (r: Builder)
    ensures r.documentEntries == [] && r.entries == [] && r.currentOffset == 0
    ensures r.style == b.style && r.styleToLevel == b.styleToLevel
    ensures LevelsValid(b) ==> Valid(r)
  {
    b.(documentEntries := [], entries := [], currentOffset := 0)
  }

  /** After a clear the next paragraph starts at offset 0 again. */
  lemma ClearRestartsOffsets(b: Builder, text: string, styleId: Option<string>, page: nat)
    ensures AddParagraph(Clear(b), text, styleId, page).documentEntries[0].offset == 0
    ensures AddParagraph(Clear(b), text, styleId, page).currentOffset == Utf8Len(text) + 1
  {
  }

  // ---------------------------------------------------------------
  // Outline levels
  // ---------------------------------------------------------------

  /**
   * `determine_level`: an explicit outline level (capped at 9) wins, then
   * the style map, then a `Heading{n}` style with `n` from 1 to 9.
   */
  function DetermineLevel(b: Builder, e: DocumentEntry): (r: Option<nat>)
    ensures e.outlineLevel.Some? ==> r == Some(Min(e.outlineLevel.value, 9))
    ensures e.outlineLevel.None? && MappedLevel(b, e.styleId).Some? ==> r == MappedLevel(b, e.styleId)
    ensures e.styleId.None? && e.outlineLevel.None? ==> r.None?
  {
    if e.outlineLevel.Some? then Some(Min(e.outlineLevel.value, 9))
    else if e.styleId.None? then None
    else if e.styleId.value in b.styleToLevel then Some(b.styleToLevel[e.styleId.value])
    else HeadingLevel(e.styleId.value)
  }

  /** The `n` of a `Heading{n}` style name, when `n` parses and lies in 1..9. */
  function HeadingLevel(styleId: string): (r: Option<nat>)
    ensures r.Some? ==> 1 <= r.value <= 9 && StartsWith(styleId, "Heading")
  {
    if StartsWith(styleId, "Heading") then
      var n := ParseU32(styleId[7..]);
      if n.Some? && 1 <= n.value <= 9 then n else None
    else None
  }

  /** With a valid style map every level lies in 1..9, except an explicit outline level 0. */
  lemma DetermineLevelBounded(b: Builder, e: DocumentEntry)
    requires LevelsValid(b)
    ensures DetermineLevel(b, e).Some? ==> DetermineLevel(b, e).value <= 9
    ensures DetermineLevel(b, e).Some? && e.outlineLevel.None? ==> DetermineLevel(b, e).value >= 1
  {
  }

  /** A paragraph with no outline level, no mapping and no `Heading` style has no level. */
  lemma DetermineLevelNone(b: Builder, e: DocumentEntry)
    ensures DetermineLevel(b, e).None? <==>
      e.outlineLevel.None? && MappedLevel(b, e.styleId).None? && (e.styleId.None? || HeadingLevel(e.styleId.value).None?)
  {
  }

  /**
   * The style a level style names is read back as that level: a
   * paragraph styled `Heading{n}` (unmapped, no outline level) gets level
   * `n`.
   */
  lemma HeadingStyleReadsBack(b: Builder, e: DocumentEntry, n: nat)
    requires 1 <= n <= 9
    requires e.outlineLevel.None? && e.styleId == Some(HeadingStyle(n)) && HeadingStyle(n) !in b.styleToLevel
    ensures DetermineLevel(b, e) == Some(n)
  {
    var s := HeadingStyle(n);
    assert s[..7] == "Heading";
    assert s[7..] == NatToString(n);
    ParseU32OfNatToString(n);
  }

  /** The style map overrides the `Heading{n}` reading (test of `Title` mapped to 1). */
  lemma MappingWins(b: Builder, styleId: string, level: nat, e: DocumentEntry)
    requires 1 <= level <= 9 && e.outlineLevel.None? && e.styleId == Some(styleId)
    ensures DetermineLevel(AddStyleLevelMapping(b, styleId, level), e) == Some(level)
  {
  }

  // ---------------------------------------------------------------
  // Building
  // ---------------------------------------------------------------

  /** A paragraph goes into the table when it has a shown level and non-blank text. */
  predicate Keeps(b: Builder, e: DocumentEntry)
  {
    DetermineLevel(b, e).Some? && DetermineLevel(b, e).value <= b.style.showLevels && !AllWhitespace(e.text)
  }

  /** The anchor of the `i`-th entry. */
  function Anchor(i: nat): string
  {
    "#toc-" + NatToString(i)
  }

  /** The entry a kept paragraph becomes when `i` entries precede it. */
  function MakeEntry(b: Builder, e: DocumentEntry, i: nat): (r: TocEntry)
    requires Keeps(b, e)
  {
    TocEntry(DetermineLevel(b, e).value, Trim(e.text), e.page, e.offset,
             if b.style.hyperlinkEntries then Some(Anchor(i)) else None, e.styleId, e.charIndex)
  }

  /** The paragraphs the table keeps, in document order. */
  function Kept(b: Builder, es: seq<DocumentEntry>): (r: seq<DocumentEntry>)
    ensures |r| <= |es|
    ensures forall k | 0 <= k < |r| :: Keeps(b, r[k])
  {
    if |es| == 0 then []
    else if Keeps(b, es[0]) then [es[0]] + Kept(b, es[1..])
    else Kept(b, es[1..])
  }

  /** A paragraph is kept exactly when it is in the document and qualifies. */
  lemma {:induction false} KeptMembers(b: Builder, es: seq<DocumentEntry>, e: DocumentEntry)
    ensures e in Kept(b, es) <==> e in es && Keeps(b, e)
    decreases |es|
  {
    if |es| > 0 {
      KeptMembers(b, es[1..], e);
      assert es == [es[0]] + es[1..];
    }
  }

  /** The loop of `build`: entries for the kept paragraphs, counted from `start`. */
  function Collect(b: Builder, es: seq<DocumentEntry>, start: nat): (r: seq<TocEntry>)
    decreases |es|
  {
    if |es| == 0 then []
    else if Keeps(b, es[0]) then [MakeEntry(b, es[0], start)] + Collect(b, es[1..], start + 1)
    else Collect(b, es[1..], start)
  }

  /** The entries for paragraphs all kept, numbered from `start`. */
  function Entries(b: Builder, ks: seq<DocumentEntry>, start: nat): (r: seq<TocEntry>)
    requires forall k | 0 <= k < |ks| :: Keeps(b, ks[k])
    decreases |ks|
  {
    if |ks| == 0 then [] else [MakeEntry(b, ks[0], start)] + Entries(b, ks[1..], start + 1)
  }

  /** The `k`-th of them is the entry of the `k`-th paragraph, numbered `start + k`. */
  lemma {:induction false} EntriesIndex(b: Builder, ks: seq<DocumentEntry>, start: nat)
    requires forall k | 0 <= k < |ks| :: Keeps(b, ks[k])
    ensures |Entries(b, ks, start)| == |ks|
    ensures forall k | 0 <= k < |ks| :: Entries(b, ks, start)[k] == MakeEntry(b, ks[k], start + k)
    decreases |ks|
  {
    if |ks| > 0 {
      EntriesIndex(b, ks[1..], start + 1);
    }
  }

  /** The loop of `build` makes one entry per kept paragraph, numbering them in order. */
  lemma {:induction false} CollectIsKept(b: Builder, es: seq<DocumentEntry>, start: nat)
    ensures Collect(b, es, start) == Entries(b, Kept(b, es), start)
    decreases |es|
  {
    if |es| > 0 {
      if Keeps(b, es[0]) {
        CollectIsKept(b, es[1..], start + 1);
        var ks := Kept(b, es);
        assert ks[0] == es[0] && ks[1..] == Kept(b, es[1..]);
      } else {
        CollectIsKept(b, es[1..], start);
      }
    }
  }

  /** The highest page among the entries, 1 when there are none. */
  function TotalPages(es: seq<TocEntry>): (r: nat)
    ensures forall k | 0 <= k < |es| :: es[k].pageNumber <= r
    ensures r == 1 || exists k | 0 <= k < |es| :: es[k].pageNumber == r
  {
    if |es| == 0 then 1
    else
      var rest := TotalPages(es[1..]);
      if |es| > 1 && rest >= es[0].pageNumber then
        assert forall k | 1 <= k < |es| :: es[k] == es[1..][k - 1];
        rest
      else
        assert forall k | 1 <= k < |es| :: es[k] == es[1..][k - 1];
        es[0].pageNumber
  }

  /** `build`: the builder keeps the entries it returns. */
  function Build(b: Builder): (r: (Builder, TocResult))
    ensures r.1.success <==> |b.documentEntries| > 0
    ensures !r.1.success ==> r.1 == TocResult([], 0, false, Some(EmptyDocumentMessage))
    ensures r.0.entries == r.1.entries
    ensures r.0.documentEntries == b.documentEntries && r.0.styleToLevel == b.styleToLevel
  {
    if |b.documentEntries| == 0 then (b.(entries := []), TocResult([], 0, false, Some(EmptyDocumentMessage)))
    else
      var es := Collect(b, b.documentEntries, 0);
      (b.(entries := es), TocResult(es, TotalPages(es), true, None))
  }

  /**
   * A built table lists the kept paragraphs in document order: level,
   * trimmed text, page and offset of each, the anchor `#toc-k` of the
   * `k`-th when hyperlinks are on, and no anchor otherwise.
   */
  lemma BuildEntries(b: Builder)
    requires |b.documentEntries| > 0
    ensures var res := Build(b).1; var kept := Kept(b, b.documentEntries);
      |res.entries| == |kept|
      && forall k | 0 <= k < |kept| ::
           res.entries[k].level == DetermineLevel(b, kept[k]).value
           && res.entries[k].level <= b.style.showLevels
           && res.entries[k].text == Trim(kept[k].text) && res.entries[k].text != []
           && res.entries[k].targetOffset == kept[k].offset
           && res.entries[k].pageNumber == kept[k].page
           && (res.entries[k].hyperlink.Some? <==> b.style.hyperlinkEntries)
           && (b.style.hyperlinkEntries ==> res.entries[k].hyperlink == Some(Anchor(k)))
  {
    var kept := Kept(b, b.documentEntries);
    CollectIsKept(b, b.documentEntries, 0);
    EntriesIndex(b, kept, 0);
    forall k | 0 <= k < |kept|
      ensures Trim(kept[k].text) != []
    {
      TrimEmptyIff(kept[k].text);
    }
  }

  /** The table's pages cover every entry, and come from one unless the table is empty. */
  lemma BuildTotalPages(b: Builder)
    requires |b.documentEntries| > 0
    ensures var res := Build(b).1;
      (forall k | 0 <= k < |res.entries| :: res.entries[k].pageNumber <= res.totalPages)
      && (|res.entries| == 0 ==> res.totalPages == 1)
  {
  }

  predicate Ascending(es: seq<DocumentEntry>)
  {
    forall i, j | 0 <= i < j < |es| :: es[i].offset < es[j].offset
  }

  /** Kept paragraphs of an ordered document stay in increasing offset order. */
  lemma {:induction false} KeptOrdered(b: Builder, es: seq<DocumentEntry>)
    requires Ascending(es)
    ensures Ascending(Kept(b, es))
    decreases |es|
  {
    if |es| > 0 {
      var rest := es[1..];
      assert Ascending(rest) by {
        forall i, j | 0 <= i < j < |rest|
          ensures rest[i].offset < rest[j].offset
        {
          assert rest[i] == es[i + 1] && rest[j] == es[j + 1];
        }
      }
      KeptOrdered(b, rest);
      if Keeps(b, es[0]) {
        var kr := Kept(b, rest);
        forall k | 0 <= k < |kr|
          ensures es[0].offset < kr[k].offset
        {
          KeptMembers(b, rest, kr[k]);
          var j :| 0 <= j < |rest| && rest[j] == kr[k];
          assert es[j + 1] == kr[k];
        }
        var r := Kept(b, es);
        assert r == [es[0]] + kr;
        forall i, j | 0 <= i < j < |r|
          ensures r[i].offset < r[j].offset
        {
          assert r[j] == kr[j - 1];
          if i > 0 {
            assert r[i] == kr[i - 1];
          }
        }
      }
    }
  }

  /** Offsets in the table strictly increase: it keeps document order. */
  lemma BuildKeepsDocumentOrder(b: Builder)
    requires Ascending(b.documentEntries) && |b.documentEntries| > 0
    ensures var res := Build(b).1;
      forall i, j | 0 <= i < j < |res.entries| :: res.entries[i].targetOffset < res.entries[j].targetOffset
  {
    BuildEntries(b);
    KeptOrdered(b, b.documentEntries);
  }

  /** Every qualifying paragraph appears in the table, and only those. */
  lemma BuildComplete(b: Builder, e: DocumentEntry)
    requires |b.documentEntries| > 0
    ensures (exists k | 0 <= k < |Build(b).1.entries| :: Build(b).1.entries[k].targetOffset == e.offset
               && Build(b).1.entries[k].text == Trim(e.text)) <== e in b.documentEntries && Keeps(b, e)
  {
    if e in b.documentEntries && Keeps(b, e) {
      KeptMembers(b, b.documentEntries, e);
      BuildEntries(b);
      var kept := Kept(b, b.documentEntries);
      var k :| 0 <= k < |kept| && kept[k] == e;
      assert Build(b).1.entries[k].targetOffset == e.offset;
    }
  }

  /** Blank and deeper-than-shown headings are skipped (the Rust unit tests of blank and level-5 headings). */
  lemma BuildSkips(b: Builder, e: DocumentEntry)
    requires Trim(e.text) == [] || (DetermineLevel(b, e).Some? && DetermineLevel(b, e).value > b.style.showLevels)
    ensures e !in Kept(b, b.documentEntries)
  {
    TrimEmptyIff(e.text);
    KeptMembers(b, b.documentEntries, e);
  }
}
