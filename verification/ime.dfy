/**
 * Input-method composition (`ime.rs`): the composition state, commit and
 * pre-edit records, the paged candidate window and the handler that
 * drives them.  Event callbacks are left out; every handler operation
 * returns the new handler together with its result.  Lengths of composed
 * text are UTF-8 byte lengths.
 */
module Ime {
  import opened Wrappers
  import opened TextUtil

  // ---------------------------------------------------------------
  // Composition state
  // ---------------------------------------------------------------

  datatype ImeState = ImeState(
    isComposing: bool,
    composingText: string,
    composingRange: (nat, nat),
    selectionRange: (nat, nat))

  const NewState := ImeState(false, "", (0, 0), (0, 0))

  /** `reset`: composition over; the selection range is left alone. */
  function Reset(s: ImeState): (r: ImeState)
    ensures !r.isComposing && r.composingText == "" && r.composingRange == (0, 0)
    ensures r.selectionRange == s.selectionRange
  {
    s.(isComposing := false, composingText := "", composingRange := (0, 0))
  }

  /** `start_composition`: an empty composition and the caret both at `position`. */
  function StartComposition(s: ImeState, position: nat): (r: ImeState)
    ensures r.isComposing && r.composingText == ""
    ensures r.composingRange == (position, position) && r.selectionRange == (position, position)
  {
    ImeState(true, "", (position, position), (position, position))
  }

  /**
   * `update_composition`: the composed text replaces the old one; the
   * range keeps its start and spans the text's bytes; the caret sits
   * `cursorPos` bytes after the start.
   */
  function UpdateComposition(s: ImeState, text: string, cursorPos: nat): (r: ImeState)
    ensures r.composingText == text && r.isComposing == s.isComposing
    ensures r.composingRange.0 == s.composingRange.0
    ensures r.composingRange.1 - r.composingRange.0 == Utf8Len(text)
    ensures r.selectionRange == (s.composingRange.0 + cursorPos, s.composingRange.0 + cursorPos)
  {
    var start := s.composingRange.0;
    s.(composingText := text, composingRange := (start, start + Utf8Len(text)),
       selectionRange := (start + cursorPos, start + cursorPos))
  }

  /** `composition_length`: bytes of the composed text. */
  function CompositionLength(s: ImeState): (n: nat)
    ensures |s.composingText| <= n <= 4 * |s.composingText|
  {
    Utf8Len(s.composingText)
  }

  /** Updating a fresh composition makes the range cover exactly the bytes of the text. */
  lemma StartThenUpdateCoversText(s: ImeState, position: nat, text: string)
    ensures var r := UpdateComposition(StartComposition(s, position), text, Utf8Len(text));
            r.isComposing && r.composingRange == (position, position + CompositionLength(r)) &&
            r.selectionRange == (r.composingRange.1, r.composingRange.1)
  {
  }

  datatype ImeCommit = ImeCommit(text: string, position: nat, committedLength: nat)

  /** `ImeCommit::new`: the committed length is the byte length of the text. */
  function NewCommit(text: string, position: nat): (c: ImeCommit)
    ensures c.text == text && c.position == position
    ensures c.committedLength == Utf8Len(text)
    ensures IsAscii(text) ==> c.committedLength == |text|
  {
    AsciiUtf8Len(text);
    ImeCommit(text, position, Utf8Len(text))
  }

  lemma {:induction false} AsciiUtf8Len(s: string)
    ensures IsAscii(s) ==> Utf8Len(s) == |s|
  {
    if |s| > 0 {
      AsciiUtf8Len(s[1..]);
      assert IsAscii(s) ==> IsAscii(s[1..]);
    }
  }

  datatype ImePreEdit = ImePreEdit(text: string, cursorPosition: nat, selection: Option<(nat, nat)>)

  datatype ImeEvent =
    | CompositionStart
    | CompositionUpdate(text: string)
    | CompositionEnd(text: string)
    | Commit(text: string)
    | InputMethodChanged(name: string)

  // ---------------------------------------------------------------
  // Candidate window
  // ---------------------------------------------------------------

  datatype CandidateWordType = Normal | Frequent | UserDefined | Emoji | Symbol

  datatype CandidateWord = CandidateWord(text: string, index: nat, wordType: CandidateWordType)

  datatype CandidateWindowConfig = CandidateWindowConfig(
    pageSize: nat,
    maxPages: nat,
    maxWordLength: nat,
    showPageNumber: bool,
    enableRealtimeSearch: bool)

  const DefaultWindowConfig := CandidateWindowConfig(5, 10, 32, true, true)

  datatype CandidateWindow = CandidateWindow(
    candidates: seq<CandidateWord>,
    currentPage: nat,
    totalPages: nat,
    config: CandidateWindowConfig,
    selectedIndex: Option<nat>)

  function NewWindow(config: CandidateWindowConfig): CandidateWindow
  {
    CandidateWindow([], 0, 0, config, None)
  }

  /**
   * `a * b`, spelled out by repeated addition so that the paging proofs
   * stay linear; `TimesIsMul` connects it with `*`.
   */
  function Times(a: nat, b: nat): nat
  {
    if a == 0 then 0 else b + Times(a - 1, b)
  }

  lemma {:induction false} TimesIsMul(a: nat, b: nat)
    ensures Times(a, b) == a * b
  {
    if a > 0 {
      TimesIsMul(a - 1, b);
    }
  }

  lemma {:induction false} TimesMono(a: nat, c: nat, b: nat)
    requires a <= c
    ensures Times(a, b) <= Times(c, b)
    decreases c
  {
    if a < c {
      TimesMono(a, c - 1, b);
    }
  }

  /** `i / size` by repeated subtraction. */
  function Quotient(i: nat, size: nat): nat
    requires size >= 1
    decreases i
  {
    if i < size then 0 else 1 + Quotient(i - size, size)
  }

  /** The quotient's page holds `i`. */
  lemma {:induction false} QuotientBrackets(i: nat, size: nat)
    requires size >= 1
    ensures Times(Quotient(i, size), size) <= i < Times(Quotient(i, size), size) + size
    decreases i
  {
    if i >= size {
      QuotientBrackets(i - size, size);
    }
  }

  lemma {:induction false} QuotientIsDiv(i: nat, size: nat)
    requires size >= 1
    ensures Quotient(i, size) == i / size
  {
    QuotientBrackets(i, size);
    TimesIsMul(Quotient(i, size), size);
    var q := Quotient(i, size);
    assert q * size <= i < q * size + size;
    DivBrackets(i, size, q);
  }

  /** Only one quotient brackets `i`. */
  lemma DivBrackets(i: nat, size: nat, q: nat)
    requires size >= 1 && q * size <= i < q * size + size
    ensures q == i / size
  {
    var d := i / size;
    assert d * size <= i < d * size + size;
    MulLeImp(q + 1, d, size);
    MulLeImp(d + 1, q, size);
    MulLeImp(q, d, size);
    MulLeImp(d, q, size);
    assert q + 1 > d;
    assert d + 1 > q;
  }

  lemma MulLeImp(a: nat, b: nat, c: nat)
    ensures a <= b ==> a * c <= b * c
    ensures (a + 1) * c == a * c + c
  {
    TimesIsMul(a, c);
    TimesIsMul(b, c);
    TimesIsMul(a + 1, c);
    if a <= b {
      TimesMono(a, b, c);
    }
  }

  lemma {:induction false} QuotientMono(i: nat, j: nat, size: nat)
    requires size >= 1 && i <= j
    ensures Quotient(i, size) <= Quotient(j, size)
    decreases i
  {
    if i >= size {
      QuotientMono(i - size, j - size, size);
    }
  }

  /** `(n + size - 1) / size`: the number of pages `n` candidates fill. */
  function PageCount(n: nat, size: nat): (p: nat)
    requires size >= 1
  {
    Quotient(n + size - 1, size)
  }

  /** The page count is the least number of pages that hold every candidate. */
  lemma PageCountFits(n: nat, size: nat)
    requires size >= 1
    ensures var p := PageCount(n, size);
            Times(p, size) >= n && (p > 0 ==> Times(p - 1, size) < n) && (p == 0 <==> n == 0) &&
            p == (n + size - 1) / size
  {
    var p := PageCount(n, size);
    QuotientBrackets(n + size - 1, size);
    QuotientIsDiv(n + size - 1, size);
    if p > 0 {
      assert Times(p, size) == size + Times(p - 1, size);
    }
  }

  /** First index of the current page. */
  function PageStart(w: CandidateWindow): nat
  {
    Times(w.currentPage, w.config.pageSize)
  }

  /** One past the last index of the current page. */
  function PageEnd(w: CandidateWindow): nat
  {
    if PageStart(w) + w.config.pageSize <= |w.candidates| then PageStart(w) + w.config.pageSize
    else |w.candidates|
  }

  /** What every window operation keeps: a real page size, a page count that fits, a page and a selection in range. */
  predicate Valid(w: CandidateWindow)
  {
    && w.config.pageSize >= 1
    && w.totalPages == PageCount(|w.candidates|, w.config.pageSize)
    && (w.currentPage < w.totalPages || (w.totalPages == 0 && w.currentPage == 0))
    && (w.selectedIndex.Some? ==> w.selectedIndex.value < |w.candidates|)
  }

  /** The selection, if any, lies on the current page. */
  predicate SelectionOnPage(w: CandidateWindow)
  {
    w.selectedIndex.Some? ==> PageStart(w) <= w.selectedIndex.value < PageEnd(w)
  }

  /** `set_candidates`: first page, nothing selected, pages recounted. */
  function SetCandidates(w: CandidateWindow, cs: seq<CandidateWord>): (r: CandidateWindow)
    requires w.config.pageSize >= 1
    ensures Valid(r) && SelectionOnPage(r)
    ensures r.candidates == cs && r.currentPage == 0 && r.selectedIndex.None?
    ensures r.totalPages == (|cs| + w.config.pageSize - 1) / w.config.pageSize
    ensures Times(r.totalPages, r.config.pageSize) >= |cs|
    ensures r.totalPages > 0 ==> Times(r.totalPages - 1, r.config.pageSize) < |cs|
  {
    PageCountFits(|cs|, w.config.pageSize);
    w.(candidates := cs, totalPages := PageCount(|cs|, w.config.pageSize), currentPage := 0, selectedIndex := None)
  }

  /** The page being shown is in bounds. */
  lemma PageInBounds(w: CandidateWindow)
    requires Valid(w)
    ensures PageStart(w) <= PageEnd(w) <= |w.candidates|
    ensures |w.candidates| > 0 ==> PageStart(w) < PageEnd(w)
  {
    PageCountFits(|w.candidates|, w.config.pageSize);
    if w.totalPages > 0 {
      TimesMono(w.currentPage, w.totalPages - 1, w.config.pageSize);
    }
  }

  /** `get_current_page_candidates`: at most one page, taken from the current page's start. */
  function CurrentPageCandidates(w: CandidateWindow): (r: seq<CandidateWord>)
    requires Valid(w)
    ensures |r| <= w.config.pageSize
    ensures PageStart(w) + |r| == PageEnd(w) <= |w.candidates|
    ensures |w.candidates| > 0 ==> |r| > 0
    ensures forall i :: 0 <= i < |r| ==> r[i] == w.candidates[PageStart(w) + i]
  {
    PageInBounds(w);
    w.candidates[PageStart(w)..PageEnd(w)]
  }

  /** `get_selected_candidate`. */
  function SelectedCandidate(w: CandidateWindow): (r: Option<CandidateWord>)
    ensures r.Some? <==> w.selectedIndex.Some? && w.selectedIndex.value < |w.candidates|
    ensures r.Some? ==> r.value == w.candidates[w.selectedIndex.value]
  {
    match w.selectedIndex
    case Some(i) => if i < |w.candidates| then Some(w.candidates[i]) else None
    case None => None
  }

  /** `select_next`: the page's first candidate when nothing is selected, else the next one on the page. */
  function SelectNext(w: CandidateWindow): (r: (CandidateWindow, bool))
    ensures !r.1 ==> r.0 == w
    ensures r.1 ==> r.0 == w.(selectedIndex := r.0.selectedIndex) && r.0.selectedIndex.Some? &&
                    r.0.selectedIndex.value < PageEnd(w)
    ensures r.1 && w.selectedIndex.None? ==> r.0.selectedIndex == Some(PageStart(w))
    ensures r.1 && w.selectedIndex.Some? ==> r.0.selectedIndex == Some(w.selectedIndex.value + 1)
    ensures w.selectedIndex.Some? && w.selectedIndex.value + 1 >= PageEnd(w) ==> !r.1
    ensures Valid(w) ==> Valid(r.0)
    ensures SelectionOnPage(w) ==> SelectionOnPage(r.0)
  {
    var start := PageStart(w);
    var end := PageEnd(w);
    match w.selectedIndex
    case None => if start < end then (w.(selectedIndex := Some(start)), true) else (w, false)
    case Some(i) => if i + 1 < end then (w.(selectedIndex := Some(i + 1)), true) else (w, false)
  }

  /**
   * `select_prev` as written: any earlier candidate, even one before the
   * current page; the page is not changed.
   */
  function SelectPrevAsWritten(w: CandidateWindow): (r: (CandidateWindow, bool))
    ensures !r.1 ==> r.0 == w
    ensures r.1 <==> w.selectedIndex.Some? && w.selectedIndex.value > 0
    ensures r.1 ==> r.0 == w.(selectedIndex := Some(w.selectedIndex.value - 1))
    ensures Valid(w) ==> Valid(r.0)
  {
    match w.selectedIndex
    case Some(i) => if i > 0 then (w.(selectedIndex := Some(i - 1)), true) else (w, false)
    case None => (w, false)
  }

  /** `select_prev` kept on the current page, the mirror image of `select_next`. */
  function SelectPrev(w: CandidateWindow): (r: (CandidateWindow, bool))
    ensures !r.1 ==> r.0 == w
    ensures r.1 <==> w.selectedIndex.Some? && w.selectedIndex.value > PageStart(w)
    ensures r.1 ==> r.0 == w.(selectedIndex := Some(w.selectedIndex.value - 1))
    ensures Valid(w) ==> Valid(r.0)
    ensures SelectionOnPage(w) ==> SelectionOnPage(r.0)
  {
    match w.selectedIndex
    case Some(i) => if i > PageStart(w) then (w.(selectedIndex := Some(i - 1)), true) else (w, false)
    case None => (w, false)
  }

  /** `next_page`: forward one page while there is one; clears the selection. */
  function NextPage(w: CandidateWindow): (r: (CandidateWindow, bool))
    ensures r.1 <==> w.currentPage + 1 < w.totalPages
    ensures r.1 ==> r.0 == w.(currentPage := w.currentPage + 1, selectedIndex := None)
    ensures !r.1 ==> r.0 == w
    ensures Valid(w) ==> Valid(r.0)
    ensures SelectionOnPage(w) ==> SelectionOnPage(r.0)
  {
    if w.currentPage + 1 < w.totalPages then (w.(currentPage := w.currentPage + 1, selectedIndex := None), true)
    else (w, false)
  }

  /** `prev_page`: back one page unless on the first; clears the selection. */
  function PrevPage(w: CandidateWindow): (r: (CandidateWindow, bool))
    ensures r.1 <==> w.currentPage > 0
    ensures r.1 ==> r.0 == w.(currentPage := w.currentPage - 1, selectedIndex := None)
    ensures !r.1 ==> r.0 == w
    ensures Valid(w) ==> Valid(r.0)
    ensures SelectionOnPage(w) ==> SelectionOnPage(r.0)
  {
    if w.currentPage > 0 then (w.(currentPage := w.currentPage - 1, selectedIndex := None), true)
    else (w, false)
  }

  /** `clear`. */
  function Clear(w: CandidateWindow): (r: CandidateWindow)
    ensures r.candidates == [] && r.currentPage == 0 && r.totalPages == 0 && r.selectedIndex.None?
    ensures r.config == w.config
    ensures w.config.pageSize >= 1 ==> Valid(r)
  {
    w.(candidates := [], currentPage := 0, totalPages := 0, selectedIndex := None)
  }

  /** `select_by_index`: selects a valid index and turns to its page; anything else changes nothing. */
  function SelectByIndex(w: CandidateWindow, index: nat): (r: (CandidateWindow, bool))
    requires w.config.pageSize >= 1
    ensures r.1 <==> index < |w.candidates|
    ensures r.1 ==> r.0 == w.(selectedIndex := Some(index), currentPage := index / w.config.pageSize)
    ensures r.1 ==> PageStart(r.0) <= index < PageStart(r.0) + w.config.pageSize
    ensures !r.1 ==> r.0 == w
    ensures Valid(w) ==> Valid(r.0)
    ensures SelectionOnPage(w) ==> SelectionOnPage(r.0)
  {
    if index < |w.candidates| then
      IndexOnItsPage(index, w.config.pageSize, |w.candidates|);
      (w.(selectedIndex := Some(index), currentPage := index / w.config.pageSize), true)
    else (w, false)
  }

  lemma IndexOnItsPage(index: nat, size: nat, n: nat)
    requires size >= 1 && index < n
    ensures Times(index / size, size) <= index < Times(index / size, size) + size
    ensures index / size < PageCount(n, size)
  {
    QuotientIsDiv(index, size);
    QuotientBrackets(index, size);
    PageCountFits(n, size);
    var p := PageCount(n, size);
    if index / size >= p {
      TimesMono(p, index / size, size);
    }
  }

  /** The width of a `usize`: 64 bits. */
  const UsizeModulus: nat := 0x1_0000_0000_0000_0000

  /** `global_idx - page_start` goes below zero: a debug build panics here. */
  predicate LocalUnderflows(w: CandidateWindow)
  {
    w.selectedIndex.Some? && w.selectedIndex.value < PageStart(w)
  }

  /**
   * `local_selected_index` as written: `global_idx - page_start` in
   * `usize`. Where it underflows a debug build panics (`LocalUnderflows`);
   * the value given is the release build's, wrapped modulo 2^64.
   */
  function LocalSelectedIndexAsWritten(w: CandidateWindow): (r: Option<nat>)
    ensures r.Some? <==> w.selectedIndex.Some?
    ensures r.Some? ==> r.value < UsizeModulus
    ensures r.Some? && !LocalUnderflows(w) && w.selectedIndex.value - PageStart(w) < UsizeModulus ==>
              r.value + PageStart(w) == w.selectedIndex.value
    ensures r.Some? && LocalUnderflows(w) && PageStart(w) - w.selectedIndex.value <= UsizeModulus ==>
              r.value + PageStart(w) == w.selectedIndex.value + UsizeModulus
  {
    match w.selectedIndex
    case Some(i) => Some((i - PageStart(w)) % UsizeModulus)
    case None => None
  }

  /** `local_selected_index` under the page invariant: the position on the page. */
  function LocalSelectedIndex(w: CandidateWindow): (r: Option<nat>)
    requires SelectionOnPage(w)
    ensures r.Some? <==> w.selectedIndex.Some?
    ensures r.Some? ==> r.value < w.config.pageSize && PageStart(w) + r.value == w.selectedIndex.value
  {
    match w.selectedIndex
    case Some(i) => Some(i - PageStart(w))
    case None => None
  }

  /**
   * Turning to the second page, selecting its first candidate and then
   * the previous one selects a candidate of the first page while the
   * window still shows the second, so the local index underflows: a
   * debug build panics and a release build reports 2^64 - 1.
   */
  lemma SelectPrevLeavesPage()
    ensures var cs := [CandidateWord("a", 0, Normal), CandidateWord("b", 1, Normal), CandidateWord("c", 2, Normal)];
            var w0 := SetCandidates(NewWindow(CandidateWindowConfig(2, 10, 32, true, true)), cs);
            var w1 := SelectPrevAsWritten(SelectNext(NextPage(w0).0).0);
            w1.1 && !SelectionOnPage(w1.0) && LocalUnderflows(w1.0) &&
            LocalSelectedIndexAsWritten(w1.0) == Some(UsizeModulus - 1)
  {
  }

  /** With `select_prev` kept on the page, the same steps stop at the page's first candidate. */
  lemma SelectPrevStaysOnPage()
    ensures var cs := [CandidateWord("a", 0, Normal), CandidateWord("b", 1, Normal), CandidateWord("c", 2, Normal)];
            var w0 := SetCandidates(NewWindow(CandidateWindowConfig(2, 10, 32, true, true)), cs);
            var w1 := SelectPrev(SelectNext(NextPage(w0).0).0);
            !w1.1 && SelectionOnPage(w1.0) && LocalSelectedIndex(w1.0) == Some(0)
  {
  }

  // ---------------------------------------------------------------
  // The handler
  // ---------------------------------------------------------------

  datatype UnderlineStyle = Solid | Dashed | Dotted | Wavy | NoUnderline

  datatype ImeConfig = ImeConfig(
    enabled: bool,
    autoCommit: bool,
    minCommitLength: nat,
    showCandidateWindow: bool,
    candidateWindowConfig: CandidateWindowConfig,
    showCompositionUnderline: bool,
    underlineStyle: UnderlineStyle)

  const DefaultConfig := ImeConfig(true, true, 0, true, DefaultWindowConfig, true, Solid)

  datatype Handler = Handler(state: ImeState, config: ImeConfig, window: CandidateWindow, inputMethod: string)

  /** `ImeHandler::new`; the candidate window starts with the default window configuration. */
  const NewHandler := Handler(NewState, DefaultConfig, NewWindow(DefaultWindowConfig), "")

  predicate HandlerValid(h: Handler)
  {
    Valid(h.window) && SelectionOnPage(h.window)
  }

  /** `composition_start`: nothing when disabled; otherwise a fresh composition and an empty window. */
  function CompositionStartOp(h: Handler, position: nat): (r: (Handler, Option<ImeEvent>))
    ensures !h.config.enabled ==> r == (h, None)
    ensures h.config.enabled ==> r.1 == Some(CompositionStart) && r.0.state == StartComposition(h.state, position) &&
                                 r.0.window.candidates == []
    ensures HandlerValid(h) ==> HandlerValid(r.0)
  {
    if !h.config.enabled then (h, None)
    else (h.(state := StartComposition(h.state, position), window := Clear(h.window)), Some(CompositionStart))
  }

  /** `composition_update`: only while enabled and composing; the caret goes to the end of the text. */
  function CompositionUpdateOp(h: Handler, text: string): (r: (Handler, Option<ImePreEdit>))
    ensures r.1.Some? <==> h.config.enabled && h.state.isComposing
    ensures r.1.None? ==> r.0 == h
    ensures r.1.Some? ==> r.1.value == ImePreEdit(text, Utf8Len(text), None) &&
                          r.0.state == UpdateComposition(h.state, text, Utf8Len(text))
    ensures HandlerValid(h) ==> HandlerValid(r.0)
  {
    if !h.config.enabled || !h.state.isComposing then (h, None)
    else
      var cursor := Utf8Len(text);
      (h.(state := UpdateComposition(h.state, text, cursor)), Some(ImePreEdit(text, cursor, None)))
  }

  /**
   * `composition_end`: when enabled, the composition is reset and a
   * non-empty committed text is committed where the composition began.
   * When disabled it returns nothing and leaves the state as it was.
   */
  function CompositionEndOp(h: Handler, committed: string): (r: (Handler, Option<ImeCommit>))
    ensures !h.config.enabled ==> r == (h, None)
    ensures h.config.enabled ==> r.0.state == Reset(h.state) && !r.0.state.isComposing
    ensures r.1.Some? <==> h.config.enabled && committed != ""
    ensures r.1.Some? ==> r.1.value == NewCommit(committed, h.state.composingRange.0)
    ensures HandlerValid(h) ==> HandlerValid(r.0)
  {
    if !h.config.enabled then (h, None)
    else
      var position := h.state.composingRange.0;
      var h' := h.(state := Reset(h.state));
      if committed != "" then (h', Some(NewCommit(committed, position))) else (h', None)
  }

  /** `composition_cancel`: reset the composition and empty the window. */
  function CompositionCancel(h: Handler): (r: Handler)
    ensures r.state == Reset(h.state) && r.window.candidates == []
    ensures HandlerValid(h) ==> HandlerValid(r)
  {
    h.(state := Reset(h.state), window := Clear(h.window))
  }

  /** `commit`: direct input, refused when disabled or empty. */
  function CommitOp(h: Handler, text: string, position: nat): (r: Option<ImeCommit>)
    ensures r.Some? <==> h.config.enabled && text != ""
    ensures r.Some? ==> r.value.text == text && r.value.position == position &&
                        r.value.committedLength == Utf8Len(text)
  {
    if !h.config.enabled || text == "" then None else Some(NewCommit(text, position))
  }

  /** `add_candidate`: appended with its index set to its position; pages recounted. */
  function AddCandidate(h: Handler, c: CandidateWord): (r: Handler)
    requires h.window.config.pageSize >= 1
    ensures r.window.candidates == h.window.candidates + [c.(index := |h.window.candidates|)]
    ensures HandlerValid(h) ==> HandlerValid(r)
  {
    var w := h.window;
    var cs := w.candidates + [c.(index := |w.candidates|)];
    var r := h.(window := w.(candidates := cs, totalPages := PageCount(|cs|, w.config.pageSize)));
    PageCountGrows(|w.candidates|, w.config.pageSize);
    r
  }

  lemma {:induction false} PageCountGrows(n: nat, size: nat)
    requires size >= 1
    ensures PageCount(n, size) <= PageCount(n + 1, size)
  {
    QuotientMono(n + size - 1, n + size, size);
  }

  datatype CandidateNavigation = Next | Prev | NextPageNav | PrevPageNav

  /**
   * `navigate_candidates` as written: `Prev` runs `select_prev` as
   * written, so the selection can leave the page shown.
   */
  function Navigate(h: Handler, d: CandidateNavigation): (r: (Handler, bool))
    ensures !r.1 ==> r.0 == h
    ensures r.0.state == h.state && r.0.config == h.config && r.0.inputMethod == h.inputMethod
    ensures Valid(h.window) ==> Valid(r.0.window)
    ensures d != Prev && HandlerValid(h) ==> HandlerValid(r.0)
    ensures d == Prev ==> (r.1 <==> h.window.selectedIndex.Some? && h.window.selectedIndex.value > 0)
    ensures d == NextPageNav ==> (r.1 <==> h.window.currentPage + 1 < h.window.totalPages)
    ensures d == PrevPageNav ==> (r.1 <==> h.window.currentPage > 0)
  {
    var (w, moved) := match d
      case Next => SelectNext(h.window)
      case Prev => SelectPrevAsWritten(h.window)
      case NextPageNav => NextPage(h.window)
      case PrevPageNav => PrevPage(h.window);
    (h.(window := w), moved)
  }

  /** `navigate_candidates` with `select_prev` kept on the page: every step keeps the handler valid. */
  function NavigateCorrected(h: Handler, d: CandidateNavigation): (r: (Handler, bool))
    ensures !r.1 ==> r.0 == h
    ensures HandlerValid(h) ==> HandlerValid(r.0)
    ensures d != Prev ==> r == Navigate(h, d)
    ensures d == Prev ==> (r.1 <==> h.window.selectedIndex.Some? && h.window.selectedIndex.value > PageStart(h.window))
  {
    var (w, moved) := match d
      case Next => SelectNext(h.window)
      case Prev => SelectPrev(h.window)
      case NextPageNav => NextPage(h.window)
      case PrevPageNav => PrevPage(h.window);
    (h.(window := w), moved)
  }

  /**
   * On the second page of "a", "b", "c" with two per page and "c"
   * selected, navigating back as written selects "b" on the first page
   * and the handler is no longer valid; the corrected step refuses.
   */
  lemma NavigatePrevLeavesPage()
    ensures var cs := [CandidateWord("a", 0, Normal), CandidateWord("b", 1, Normal), CandidateWord("c", 2, Normal)];
            var w := SelectNext(NextPage(SetCandidates(NewWindow(CandidateWindowConfig(2, 10, 32, true, true)), cs)).0).0;
            var h := NewHandler.(window := w);
            HandlerValid(h) &&
            Navigate(h, Prev).1 && Navigate(h, Prev).0.window.selectedIndex == Some(1) &&
            !HandlerValid(Navigate(h, Prev).0) &&
            !NavigateCorrected(h, Prev).1 && HandlerValid(NavigateCorrected(h, Prev).0)
  {
  }

  /** A full composition commits the final text at the starting position and ends composing. */
  lemma ComposeAndCommit(position: nat, draft: string, final: string)
    requires final != ""
    ensures var (h1, e) := CompositionStartOp(NewHandler, position);
            var (h2, p) := CompositionUpdateOp(h1, draft);
            var (h3, c) := CompositionEndOp(h2, final);
            e == Some(CompositionStart) && p.Some? && p.value.text == draft &&
            c == Some(ImeCommit(final, position, Utf8Len(final))) && !h3.state.isComposing
  {
  }

  /** `ImeAdapter::insert_composing_text_at`: the position after the inserted bytes. */
  function InsertComposingTextAt(position: nat, text: string): (r: nat)
    ensures position + |text| <= r <= position + 4 * |text|
    ensures r == position + NewCommit(text, position).committedLength
    ensures IsAscii(text) ==> r == position + |text|
  {
    AsciiUtf8Len(text);
    position + Utf8Len(text)
  }

  /** The position returned is where a composition of the same text, started there, ends. */
  lemma InsertComposingTextEndsComposition(s: ImeState, position: nat, text: string, cursorPos: nat)
    ensures InsertComposingTextAt(position, text)
            == UpdateComposition(StartComposition(s, position), text, cursorPos).composingRange.1
  {
  }
}
