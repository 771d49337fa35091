/**
 * Drag-to-select (`drag_selection.rs`): the drag state machine, the
 * choice of selection mode, word and line boundaries, and the handler's
 * selection getters.  Timestamps and drag velocity depend on the wall
 * clock and are not modelled; screen distances are reals.
 */
module DragSelection {
  import opened Wrappers
  import opened TextUtil

  /** `usize::MAX` on a 64-bit target. */
  const UsizeMax: nat := 0xFFFF_FFFF_FFFF_FFFF

  datatype DocumentPosition = DocumentPosition(charOffset: nat, line: nat, column: nat)

  const Origin := DocumentPosition(0, 0, 0)

  predicate IsStart(p: DocumentPosition)
  {
    p.charOffset == 0
  }

  /** `is_end`: at or past the last character (`total_chars.saturating_sub(1)`). */
  predicate IsEnd(p: DocumentPosition, totalChars: nat)
  {
    p.charOffset >= (if totalChars == 0 then 0 else totalChars - 1)
  }

  datatype SelectionMode = Character | Word | Line | Column | Block | Document

  datatype ScrollDirection = NoScroll | Up | Down | Left | Right | UpLeft | UpRight | DownLeft | DownRight

  datatype DragTarget = Selection | Image | Table

  datatype DragPhaseType = Idle | Started | Dragging | Ended | Cancelled

  datatype DragPhase = DragPhase(phase: DragPhaseType, distanceX: real, distanceY: real, isExtend: bool, isColumn: bool)

  const IdlePhase := DragPhase(Idle, 0.0, 0.0, false, false)

  datatype State = State(
    isDragging: bool,
    startPosition: DocumentPosition,
    currentPosition: DocumentPosition,
    anchorPosition: DocumentPosition,
    selectionMode: SelectionMode,
    scrollDirection: ScrollDirection,
    dragPhase: DragPhase,
    extendSelection: bool,
    isColumnSelection: bool,
    selectionStart: nat,
    selectionEnd: nat,
    selectionRanges: seq<(nat, nat)>,
    dragTarget: DragTarget,
    showVisualFeedback: bool)

  const Initial := State(false, Origin, Origin, Origin, Character, NoScroll, IdlePhase,
                         false, false, 0, 0, [], Selection, false)

  // ---------------------------------------------------------------
  // Invariants the operations keep
  // ---------------------------------------------------------------

  /** The selection bounds follow the anchor and the current position. */
  predicate Tracks(s: State)
  {
    var a := s.anchorPosition.charOffset;
    var c := s.currentPosition.charOffset;
    if s.isColumnSelection then s.selectionStart == a && s.selectionEnd == c
    else s.selectionStart == Min(a, c) && s.selectionEnd == Max(a, c)
  }

  /** While dragging, the phase is `Started` or `Dragging`. */
  predicate PhaseAgrees(s: State)
  {
    s.isDragging ==> s.dragPhase.phase == Started || s.dragPhase.phase == Dragging
  }

  /** No operation ever asks for auto-scrolling: the direction is always worked out as none. */
  predicate NeverScrolls(s: State)
  {
    s.scrollDirection == NoScroll
  }

  predicate Good(s: State)
  {
    Tracks(s) && PhaseAgrees(s) && NeverScrolls(s)
  }

  /**
   * The selection bounds are the anchor and current offsets, in one order
   * or the other.  Unlike `Tracks`, this survives a column toggle in the
   * middle of a drag, which keeps the bounds but changes how they are read.
   */
  predicate Spans(s: State)
  {
    var a := s.anchorPosition.charOffset;
    var c := s.currentPosition.charOffset;
    (s.selectionStart == a && s.selectionEnd == c) || (s.selectionStart == c && s.selectionEnd == a)
  }

  /** What every state reached from a new one satisfies. */
  predicate Consistent(s: State)
  {
    Spans(s) && PhaseAgrees(s) && NeverScrolls(s)
  }

  function Min(a: nat, b: nat): nat { if a <= b then a else b }
  function Max(a: nat, b: nat): nat { if a <= b then b else a }

  // ---------------------------------------------------------------
  // The state machine
  // ---------------------------------------------------------------

  /** `reset`: everything back to the default, except the drag target. */
  function Reset(s: State): (r: State)
    ensures Good(r) && Consistent(r) && !r.isDragging && r.dragPhase.phase == Idle
    ensures r.selectionStart == 0 && r.selectionEnd == 0 && r.selectionRanges == []
    ensures r.dragTarget == s.dragTarget
  {
    Initial.(dragTarget := s.dragTarget)
  }

  /** `start_drag`: anchor, start and current all at `p`, an empty selection there, phase `Started`. */
  function StartDrag(s: State, p: DocumentPosition, mode: SelectionMode, isExtend: bool, isColumn: bool,
                     target: DragTarget): (r: State)
    ensures Tracks(r) && PhaseAgrees(r) && r.scrollDirection == s.scrollDirection
    ensures NeverScrolls(s) ==> Consistent(r)
    ensures r.isDragging && r.dragPhase.phase == Started
    ensures r.anchorPosition == p && r.startPosition == p && r.currentPosition == p
    ensures r.selectionStart == p.charOffset && r.selectionEnd == p.charOffset
    ensures r.selectionMode == mode && r.isColumnSelection == isColumn && r.extendSelection == isExtend
    ensures r.selectionRanges == s.selectionRanges
  {
    s.(isDragging := true, startPosition := p, currentPosition := p, anchorPosition := p,
       selectionMode := mode, extendSelection := isExtend, isColumnSelection := isColumn,
       dragTarget := target, selectionStart := p.charOffset, selectionEnd := p.charOffset,
       showVisualFeedback := true, dragPhase := DragPhase(Started, 0.0, 0.0, isExtend, isColumn))
  }

  /** `update_selection_range`: column selections keep their direction, others are normalized. */
  function UpdateSelectionRange(s: State): (r: State)
    ensures Tracks(r)
    ensures r == s.(selectionStart := r.selectionStart, selectionEnd := r.selectionEnd)
  {
    var anchor := s.anchorPosition.charOffset;
    var active := s.currentPosition.charOffset;
    if s.isColumnSelection then s.(selectionStart := anchor, selectionEnd := active)
    else if anchor <= active then s.(selectionStart := anchor, selectionEnd := active)
    else s.(selectionStart := active, selectionEnd := anchor)
  }

  /** `update_position`: ignored unless dragging; otherwise moves the active end and enters `Dragging`. */
  function UpdatePosition(s: State, p: DocumentPosition): (r: State)
    ensures !s.isDragging ==> r == s
    ensures s.isDragging ==> Good(r) && r.isDragging && r.currentPosition == p && r.dragPhase.phase == Dragging &&
                             r.anchorPosition == s.anchorPosition && r.isColumnSelection == s.isColumnSelection &&
                             r.selectionRanges == s.selectionRanges
    ensures Consistent(s) ==> Consistent(r)
  {
    if !s.isDragging then s
    else
      var moved := UpdateSelectionRange(s.(currentPosition := p));
      moved.(dragPhase := moved.dragPhase.(phase := Dragging), scrollDirection := NoScroll)
  }

  /** `update_drag_distance`: ignored unless dragging. */
  function UpdateDragDistance(s: State, startX: real, startY: real, x: real, y: real): (r: State)
    ensures !s.isDragging ==> r == s
    ensures s.isDragging ==> r.dragPhase.distanceX == x - startX && r.dragPhase.distanceY == y - startY
    ensures Good(s) ==> Good(r)
    ensures Consistent(s) ==> Consistent(r)
  {
    if !s.isDragging then s
    else s.(dragPhase := s.dragPhase.(distanceX := x - startX, distanceY := y - startY))
  }

  /** `end_drag`: ignored unless dragging; otherwise stops with phase `Ended`, keeping the selection. */
  function EndDrag(s: State): (r: State)
    ensures !s.isDragging ==> r == s
    ensures s.isDragging ==> !r.isDragging && r.dragPhase.phase == Ended && r.scrollDirection == NoScroll
    ensures r.selectionStart == s.selectionStart && r.selectionEnd == s.selectionEnd
    ensures Good(s) ==> Good(r)
    ensures Consistent(s) ==> Consistent(r)
  {
    if !s.isDragging then s
    else s.(isDragging := false, dragPhase := s.dragPhase.(phase := Ended), scrollDirection := NoScroll)
  }

  /** `cancel_drag`: always stops with phase `Cancelled`; the selection bounds stay. */
  function CancelDrag(s: State): (r: State)
    ensures !r.isDragging && r.dragPhase.phase == Cancelled && r.scrollDirection == NoScroll
    ensures r.selectionStart == s.selectionStart && r.selectionEnd == s.selectionEnd
    ensures Tracks(s) ==> Good(r)
    ensures Spans(s) ==> Consistent(r)
  {
    s.(isDragging := false, dragPhase := s.dragPhase.(phase := Cancelled), scrollDirection := NoScroll)
  }

  function SetMode(s: State, mode: SelectionMode): (r: State)
    ensures r.selectionMode == mode
    ensures Good(s) ==> Good(r)
    ensures Consistent(s) ==> Consistent(r)
  {
    s.(selectionMode := mode)
  }

  /**
   * `toggle_column_mode`: flips column selection without recomputing the
   * bounds, so a reversed column selection stays reversed once the mode
   * is normal again (until the next move).
   */
  function ToggleColumnMode(s: State): (r: State)
    ensures r.isColumnSelection == !s.isColumnSelection && r.dragPhase.isColumn == r.isColumnSelection
    ensures r.selectionStart == s.selectionStart && r.selectionEnd == s.selectionEnd
    ensures PhaseAgrees(s) && NeverScrolls(s) ==> PhaseAgrees(r) && NeverScrolls(r)
    ensures Consistent(s) ==> Consistent(r)
  {
    s.(isColumnSelection := !s.isColumnSelection, dragPhase := s.dragPhase.(isColumn := !s.isColumnSelection))
  }

  function SetExtend(s: State, extend: bool): (r: State)
    ensures r.extendSelection == extend && r.dragPhase.isExtend == extend
    ensures Good(s) ==> Good(r)
    ensures Consistent(s) ==> Consistent(r)
  {
    s.(extendSelection := extend, dragPhase := s.dragPhase.(isExtend := extend))
  }

  function AddSelectionRange(s: State, start: nat, end: nat): (r: State)
    ensures r.selectionRanges == s.selectionRanges + [(start, end)]
    ensures Good(s) ==> Good(r)
    ensures Consistent(s) ==> Consistent(r)
  {
    s.(selectionRanges := s.selectionRanges + [(start, end)])
  }

  function ClearSelectionRanges(s: State): (r: State)
    ensures r.selectionRanges == []
    ensures Good(s) ==> Good(r)
    ensures Consistent(s) ==> Consistent(r)
  {
    s.(selectionRanges := [])
  }

  /** `has_selection`: extra ranges exist or the primary range is non-empty. */
  predicate HasSelection(s: State)
  {
    |s.selectionRanges| > 0 || s.selectionEnd > s.selectionStart
  }

  /** `selection_length`: `end - start`, saturating at zero. */
  function SelectionLength(s: State): (r: nat)
    ensures r > 0 <==> s.selectionEnd > s.selectionStart
    ensures r > 0 ==> s.selectionStart + r == s.selectionEnd
  {
    if s.selectionEnd > s.selectionStart then s.selectionEnd - s.selectionStart else 0
  }

  predicate IsActive(s: State)
  {
    s.isDragging && s.dragPhase.phase == Dragging
  }

  predicate IsJustStarted(s: State)
  {
    s.isDragging && s.dragPhase.phase == Started
  }

  /** `determine_selection_mode`: Alt wins, then the margin, then the click count. */
  function DetermineSelectionMode(onMargin: bool, altPressed: bool, clickCount: nat): (m: SelectionMode)
    ensures altPressed ==> m == Column
    ensures !altPressed && onMargin ==> m == Line
    ensures !altPressed && !onMargin ==>
              m == (if clickCount == 2 then Word else if clickCount == 3 then Line else Character)
  {
    if altPressed then Column
    else if onMargin then Line
    else if clickCount == 2 then Word
    else if clickCount == 3 then Line
    else Character
  }

  /**
   * A drag from `p` to `q` and a release select the range between the two
   * offsets; there is a selection exactly when they differ or extra ranges
   * were already there.
   */
  lemma DragSelectsBetween(s: State, p: DocumentPosition, q: DocumentPosition, mode: SelectionMode)
    ensures var r := EndDrag(UpdatePosition(StartDrag(s, p, mode, false, false, Selection), q));
            !r.isDragging && r.dragPhase.phase == Ended && r.scrollDirection == NoScroll &&
            r.selectionStart == Min(p.charOffset, q.charOffset) &&
            r.selectionEnd == Max(p.charOffset, q.charOffset) &&
            (HasSelection(r) <==> p.charOffset != q.charOffset || |s.selectionRanges| > 0)
  {
  }

  /** Starting, moving and cancelling leaves the moved-to selection in place. */
  lemma CancelKeepsSelection(s: State, p: DocumentPosition, q: DocumentPosition)
    ensures var r := CancelDrag(UpdatePosition(StartDrag(s, p, Column, false, true, Selection), q));
            r.dragPhase.phase == Cancelled && r.selectionStart == p.charOffset && r.selectionEnd == q.charOffset
  {
  }

  /** The public operations of the drag state, as events. */
  datatype Event =
    | Start(p: DocumentPosition, mode: SelectionMode, isExtend: bool, isColumn: bool, target: DragTarget)
    | Move(p: DocumentPosition)
    | Distance(startX: real, startY: real, x: real, y: real)
    | Release
    | Cancel
    | ToggleColumn
    | ChangeMode(mode: SelectionMode)
    | Extend(extend: bool)
    | AddRange(start: nat, end: nat)
    | ClearRanges
    | ResetAll

  function Step(s: State, e: Event): State
  {
    match e
    case Start(p, mode, isExtend, isColumn, target) => StartDrag(s, p, mode, isExtend, isColumn, target)
    case Move(p) => UpdatePosition(s, p)
    case Distance(startX, startY, x, y) => UpdateDragDistance(s, startX, startY, x, y)
    case Release => EndDrag(s)
    case Cancel => CancelDrag(s)
    case ToggleColumn => ToggleColumnMode(s)
    case ChangeMode(mode) => SetMode(s, mode)
    case Extend(extend) => SetExtend(s, extend)
    case AddRange(start, end) => AddSelectionRange(s, start, end)
    case ClearRanges => ClearSelectionRanges(s)
    case ResetAll => Reset(s)
  }

  /** The state after the events, in order. */
  function Run(s: State, events: seq<Event>): State
    decreases |events|
  {
    if |events| == 0 then s else Run(Step(s, events[0]), events[1..])
  }

  lemma StepKeepsConsistent(s: State, e: Event)
    requires Consistent(s)
    ensures Consistent(Step(s, e))
  {
  }

  /** Every state reached from a new one is consistent, whatever the events. */
  lemma {:induction false} RunKeepsConsistent(s: State, events: seq<Event>)
    requires Consistent(s)
    ensures Consistent(Run(s, events))
    decreases |events|
  {
    if |events| > 0 {
      StepKeepsConsistent(s, events[0]);
      RunKeepsConsistent(Step(s, events[0]), events[1..]);
    }
  }

  /**
   * Toggling column mode in the middle of a drag keeps the bounds but not
   * their reading: after starting at 5 and moving to 2, the normal bounds
   * 2..5 stand for a column selection from anchor 5, which would be 5..2.
   * The next move puts `Tracks` back.
   */
  lemma ToggleMidDragBreaksTracks()
    ensures var s := Run(Initial, [Start(DocumentPosition(5, 0, 5), Character, false, false, Selection),
                                   Move(DocumentPosition(2, 0, 2)), ToggleColumn]);
            s.isDragging && s.isColumnSelection && !Tracks(s) && Consistent(s) &&
            s.selectionStart == 2 && s.selectionEnd == 5 &&
            Tracks(UpdatePosition(s, DocumentPosition(2, 0, 2)))
  {
    var s0 := StartDrag(Initial, DocumentPosition(5, 0, 5), Character, false, false, Selection);
    var s1 := UpdatePosition(s0, DocumentPosition(2, 0, 2));
    assert s1.selectionStart == 2 && s1.selectionEnd == 5;
    assert Run(Initial, [Start(DocumentPosition(5, 0, 5), Character, false, false, Selection),
                         Move(DocumentPosition(2, 0, 2)), ToggleColumn])
           == ToggleColumnMode(s1) by {
      RunThree(Initial, Start(DocumentPosition(5, 0, 5), Character, false, false, Selection),
               Move(DocumentPosition(2, 0, 2)), ToggleColumn);
    }
  }

  lemma RunThree(s: State, a: Event, b: Event, c: Event)
    ensures Run(s, [a, b, c]) == Step(Step(Step(s, a), b), c)
  {
    assert [a, b, c][1..] == [b, c];
    assert [b, c][1..] == [c];
    assert [c][1..] == [];
    var s3 := Step(Step(Step(s, a), b), c);
    assert Run(s3, []) == s3;
    assert Run(Step(Step(s, a), b), [c]) == s3;
    assert Run(Step(s, a), [b, c]) == s3;
  }

  // ---------------------------------------------------------------
  // Word boundaries (character indices)
  // ---------------------------------------------------------------

  /** The word separators shared by the boundary search and the default configuration. */
  const Separators: string := " \t\n\r.,!?;:\"'()[]{}<>/\\|@#$%^&*-_+=`~"

  predicate IsSeparator(c: char)
  {
    CharIn(c, Separators)
  }

  /** A word begins at `i`: a non-separator right after a separator. */
  predicate WordStartAt(text: string, i: nat)
  {
    0 < i < |text| && !IsSeparator(text[i]) && IsSeparator(text[i - 1])
  }

  /** The loop of `find_word_start`: the last word start in `[1, i]`, or 0. */
  function ScanWordStart(text: string, i: nat): (r: nat)
    requires i < |text|
    ensures r <= i
    ensures r > 0 ==> WordStartAt(text, r)
    ensures forall j :: r < j <= i ==> !WordStartAt(text, j)
  {
    if i == 0 then 0
    else if WordStartAt(text, i) then i
    else ScanWordStart(text, i - 1)
  }

  /** Index of the first non-separator at or after `i`, or `|text|`. */
  function SkipSeparators(text: string, i: nat): (r: nat)
    requires i <= |text|
    ensures i <= r <= |text|
    ensures r < |text| ==> !IsSeparator(text[r])
    ensures forall j :: i <= j < r ==> IsSeparator(text[j])
    decreases |text| - i
  {
    if i < |text| && IsSeparator(text[i]) then SkipSeparators(text, i + 1) else i
  }

  /** Index of the first separator at or after `i`, or `|text|`. */
  function SkipWord(text: string, i: nat): (r: nat)
    requires i <= |text|
    ensures i <= r <= |text|
    ensures r < |text| ==> IsSeparator(text[r])
    ensures forall j :: i <= j < r ==> !IsSeparator(text[j])
    decreases |text| - i
  {
    if i < |text| && !IsSeparator(text[i]) then SkipWord(text, i + 1) else i
  }

  /**
   * `find_word_start`: scanning back from the character BEFORE `offset`,
   * the nearest word start; failing that 0 when the text begins with a
   * word, else the first non-separator (0 when there is none).
   */
  function FindWordStart(text: string, offset: nat): (r: nat)
    ensures r <= |text|
    ensures r == 0 || WordStartAt(text, r)
    ensures forall j :: r < j < Min(offset, |text|) ==> !WordStartAt(text, j)
  {
    if |text| == 0 || offset == 0 then 0
    else
      var o := Min(offset, |text|);
      var s := ScanWordStart(text, o - 1);
      if s > 0 then s
      else if !IsSeparator(text[0]) then 0
      else
        var p := SkipSeparators(text, 0);
        if p < |text| then p else 0
  }

  /** `find_word_end`: from `min(offset, len - 1)`, skip separators, then the word. */
  function FindWordEnd(text: string, offset: nat): (r: nat)
    ensures r <= |text|
    ensures |text| > 0 ==> Min(offset, |text| - 1) <= r
    ensures r < |text| ==> IsSeparator(text[r]) && r > 0 && !IsSeparator(text[r - 1])
    ensures |text| > 0 ==> forall j :: Min(offset, |text| - 1) <= j < r && !IsSeparator(text[j]) ==>
                                      forall k :: j <= k < r ==> !IsSeparator(text[k])
  {
    if |text| == 0 then 0
    else SkipWord(text, SkipSeparators(text, Min(offset, |text| - 1)))
  }

  /** `get_word_at`: the non-empty range `[start, end)` between the two boundaries. */
  function GetWordAt(text: string, offset: nat): (r: Option<(nat, nat)>)
    ensures |text| == 0 ==> r.None?
    ensures r.Some? ==> r.value.0 < r.value.1 <= |text|
    ensures r.Some? <==> FindWordStart(text, offset) < FindWordEnd(text, offset)
  {
    if |text| == 0 then None
    else
      var s := FindWordStart(text, offset);
      var e := FindWordEnd(text, offset);
      if s < e then Some((s, e)) else None
  }

  /**
   * Text made only of separators (and at least one of them) yields the
   * whole text as its "word": the start falls back to 0 and the end runs
   * past every separator.
   */
  lemma {:induction false} SeparatorsOnlySelectAll(text: string, offset: nat)
    requires |text| > 0
    requires forall j :: 0 <= j < |text| ==> IsSeparator(text[j])
    ensures GetWordAt(text, offset) == Some((0, |text|))
  {
    assert FindWordStart(text, offset) == 0;
    assert FindWordEnd(text, offset) == |text|;
  }

  lemma WhitespaceOnlyExample()
    ensures GetWordAt("  ", 0) == Some((0, 2))
  {
    assert IsSeparator(' ');
    SeparatorsOnlySelectAll("  ", 0);
  }

  /** `get_word_at` as its callers expect it: a range only when it holds a word character. */
  function GetWordAtFixed(text: string, offset: nat): (r: Option<(nat, nat)>)
    ensures r.Some? ==> r.value.0 < r.value.1 <= |text| &&
                        exists j :: r.value.0 <= j < r.value.1 && !IsSeparator(text[j])
    ensures r.Some? ==> r == GetWordAt(text, offset)
  {
    match GetWordAt(text, offset)
    case None => None
    case Some((s, e)) =>
      if SkipSeparators(text, s) < e then Some((s, e)) else None
  }

  /** With the correction, text made only of separators has no word. */
  lemma NoWordInSeparatorsFixed(text: string, offset: nat)
    requires forall j :: 0 <= j < |text| ==> IsSeparator(text[j])
    ensures GetWordAtFixed(text, offset).None?
  {
  }

  /** Inside a word that is not its first character, the word found is exactly that word. */
  lemma {:induction false} WordAtInsideWord(text: string, offset: nat, s: nat, e: nat)
    requires s < offset < e <= |text|
    requires s == 0 || IsSeparator(text[s - 1])
    requires e == |text| || IsSeparator(text[e])
    requires forall j :: s <= j < e ==> !IsSeparator(text[j])
    ensures GetWordAt(text, offset) == Some((s, e))
  {
    var o := Min(offset, |text|);
    var st := ScanWordStart(text, o - 1);
    assert s > 0 ==> WordStartAt(text, s);
    assert st == s;
    assert SkipSeparators(text, offset) == offset;
    var en := SkipWord(text, offset);
    assert en == e;
  }

  // ---------------------------------------------------------------
  // Line boundaries (byte indices, one character per byte)
  // ---------------------------------------------------------------

  /** The loop of `get_line_range`, at character `i` of line `cur`, which began at `lineStart`. */
  function ScanLines(text: string, n: nat, i: nat, lineStart: nat, cur: nat): (r: Option<(nat, nat)>)
    requires i <= |text| && cur <= n
    requires cur == CountChar(text[..i], '\n') && lineStart == LineStart(text, i)
    requires cur == CountChar(text[..lineStart], '\n')
    ensures r.Some? <==> n <= CountChar(text, '\n')
    ensures r.Some? ==> var (s, e) := r.value;
                        s <= e <= |text| && LineStart(text, e) == s &&
                        (e == |text| || text[e] == '\n') && CountChar(text[..s], '\n') == n
    decreases |text| - i
  {
    if i == |text| then
      assert text[..i] == text;
      if cur == n then Some((lineStart, |text|)) else None
    else if text[i] == '\n' then
      CountCharSnoc(text, i);
      NewlineAdvancesLine(text, i + 1, |text|);
      assert text[..|text|] == text;
      if cur == n then
        Some((lineStart, i))
      else ScanLines(text, n, i + 1, i + 1, cur + 1)
    else
      CountCharSnoc(text, i);
      ScanLines(text, n, i + 1, lineStart, cur)
  }

  /**
   * `get_line_range`: the range of line `n` (0-based) without its
   * newline; present exactly when the text is non-empty and has at least
   * `n` newlines.
   */
  function GetLineRange(text: string, n: nat): (r: Option<(nat, nat)>)
    ensures r.Some? <==> |text| > 0 && n <= CountChar(text, '\n')
    ensures r.Some? ==> var (s, e) := r.value;
                        s <= e <= |text| && LineStart(text, e) == s &&
                        (e == |text| || text[e] == '\n') && CountChar(text[..s], '\n') == n
  {
    if |text| == 0 then None else ScanLines(text, n, 0, 0, 0)
  }

  /** `get_line_number`: the newlines among the first `offset` characters. */
  function GetLineNumber(text: string, offset: nat): (r: nat)
    ensures r <= CountChar(text, '\n')
    ensures offset <= |text| ==> r == CountChar(text[..offset], '\n')
  {
    var o := Min(offset, |text|);
    NewlineAdvancesLine(text, o, |text|);
    assert text[..|text|] == text;
    CountChar(text[..o], '\n')
  }

  function GetLineStart(text: string, n: nat): (r: Option<nat>)
    ensures r.Some? <==> GetLineRange(text, n).Some?
    ensures r.Some? ==> r.value == GetLineRange(text, n).value.0
  {
    match GetLineRange(text, n)
    case Some((s, _)) => Some(s)
    case None => None
  }

  function GetLineEnd(text: string, n: nat): (r: Option<nat>)
    ensures r.Some? <==> GetLineRange(text, n).Some?
    ensures r.Some? ==> r.value == GetLineRange(text, n).value.1
  {
    match GetLineRange(text, n)
    case Some((_, e)) => Some(e)
    case None => None
  }

  /** The line numbered from an offset is the line whose range holds that offset. */
  lemma LineOfOffsetHoldsIt(text: string, o: nat)
    requires 0 < |text| && o <= |text|
    ensures var r := GetLineRange(text, GetLineNumber(text, o));
            r.Some? && r.value.0 <= o <= r.value.1 && r.value.0 == LineStart(text, o)
  {
    var n := GetLineNumber(text, o);
    var (s, e) := GetLineRange(text, n).value;
    if o < s {
      NewlineAdvancesLine(text, o, s);
    }
    if e < o {
      NewlineAdvancesLine(text, e + 1, o);
      NewlineAdvancesLine(text, s, e);
      CountCharSnoc(text, e);
    }
    LineStartNoNewline(text, s, o);
  }

  // ---------------------------------------------------------------
  // The handler
  // ---------------------------------------------------------------

  datatype VisualFeedbackStyle = Highlight | Underline | CursorLine | Brackets | NoFeedback

  datatype Config = Config(
    dragThreshold: real,
    scrollSpeed: real,
    autoScrollDelayMs: nat,
    wordSeparators: string,
    altColumnSelection: bool,
    marginLineSelection: bool,
    tripleClickLineSelection: bool,
    feedbackStyle: VisualFeedbackStyle)

  const DefaultConfig := Config(5.0, 1.0, 100, Separators, true, true, true, Highlight)

  datatype Handler = Handler(state: State, config: Config)

  const NewHandler := Handler(Initial, DefaultConfig)

  /** `on_pointer_down`: start a non-column drag. */
  function OnPointerDown(h: Handler, p: DocumentPosition, mode: SelectionMode, isExtend: bool,
                         target: DragTarget): (r: Handler)
    ensures r.state == StartDrag(h.state, p, mode, isExtend, false, target) && r.config == h.config
    ensures !r.state.isColumnSelection
  {
    h.(state := StartDrag(h.state, p, mode, isExtend, false, target))
  }

  /** `on_alt_key_pressed`: toggles column mode only when the configuration allows it. */
  function OnAltKeyPressed(h: Handler): (r: Handler)
    ensures h.config.altColumnSelection ==> r.state.isColumnSelection == !h.state.isColumnSelection
    ensures !h.config.altColumnSelection ==> r == h
  {
    if h.config.altColumnSelection then h.(state := ToggleColumnMode(h.state)) else h
  }

  /** `get_selection_ranges`: the primary range (when non-empty) in front of the extra ranges. */
  function GetSelectionRanges(h: Handler): (r: seq<(nat, nat)>)
    ensures var s := h.state;
            if s.selectionStart < s.selectionEnd
            then r == [(s.selectionStart, s.selectionEnd)] + s.selectionRanges
            else r == s.selectionRanges
    ensures |r| > 0 <==> HasSelection(h.state)
  {
    var s := h.state;
    if s.selectionStart < s.selectionEnd then [(s.selectionStart, s.selectionEnd)] + s.selectionRanges
    else s.selectionRanges
  }

  /** `get_primary_selection`: present exactly when the range is non-empty. */
  function GetPrimarySelection(h: Handler): (r: Option<(nat, nat)>)
    ensures r.Some? <==> h.state.selectionStart < h.state.selectionEnd
    ensures r.Some? ==> r.value == (h.state.selectionStart, h.state.selectionEnd)
  {
    if h.state.selectionStart < h.state.selectionEnd then Some((h.state.selectionStart, h.state.selectionEnd))
    else None
  }

  /** `expand_to_word`: both word boundaries, whether or not they form a word. */
  function ExpandToWord(text: string, offset: nat): (r: (nat, nat))
    ensures r.0 < r.1 <==> GetWordAt(text, offset).Some?
    ensures r.0 < r.1 ==> GetWordAt(text, offset) == Some(r)
  {
    (FindWordStart(text, offset), FindWordEnd(text, offset))
  }

  /** `expand_to_line`: the line's range, or the whole text when there is no such line. */
  function ExpandToLine(text: string, n: nat): (r: (nat, nat))
    ensures r.0 <= r.1 <= |text|
    ensures GetLineRange(text, n).None? <==> r == (0, |text|) && (|text| == 0 || n > CountChar(text, '\n'))
  {
    match GetLineRange(text, n)
    case Some(range) => range
    case None => (0, |text|)
  }

  /** `expand_to_document`: from 0 to `usize::MAX`, which covers any text a `usize` can index. */
  function ExpandToDocument(text: string): (r: (nat, nat))
    ensures r.0 == 0 && (|text| <= UsizeMax ==> |text| <= r.1)
  {
    (0, UsizeMax)
  }

  predicate NeedsAutoScroll(h: Handler)
  {
    h.state.scrollDirection != NoScroll
  }

  /** `get_scroll_delta`: a unit step per direction. */
  function ScrollDelta(d: ScrollDirection): (r: (int, int))
    ensures -1 <= r.0 <= 1 && -1 <= r.1 <= 1
    ensures r == (0, 0) <==> d == NoScroll
  {
    match d
    case NoScroll => (0, 0)
    case Up => (0, -1)
    case Down => (0, 1)
    case Left => (-1, 0)
    case Right => (1, 0)
    case UpLeft => (-1, -1)
    case UpRight => (1, -1)
    case DownLeft => (-1, 1)
    case DownRight => (1, 1)
  }

  /** Different directions scroll by different steps. */
  lemma ScrollDeltaInjective(a: ScrollDirection, b: ScrollDirection)
    requires ScrollDelta(a) == ScrollDelta(b)
    ensures a == b
  {
  }

  /**
   * In every state the operations reach from a new handler, no auto-scroll
   * is needed and the delta is zero: `calculate_scroll_direction` always
   * answers none.  Only a direction written through `state_mut` scrolls.
   */
  lemma ReachableNeverScrolls(config: Config, events: seq<Event>)
    ensures var h := Handler(Run(Initial, events), config);
            !NeedsAutoScroll(h) && ScrollDelta(h.state.scrollDirection) == (0, 0)
  {
    RunKeepsConsistent(Initial, events);
  }
}
