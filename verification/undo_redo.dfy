/**
 * Command-based undo/redo (`undo_redo.rs`).
 *
 * The commands act on a document through three operations they call on
 * it (`insert` answering success, `delete`, `get_text_range`), which the
 * piece table of `piece_tree.rs` does not offer in that form.  The model
 * takes the document to be its text and assumes: an insert succeeds
 * exactly when the offset is inside or at the end of the text and then
 * splices as the piece table does; a delete succeeds exactly when the
 * whole range is inside it.  The merge-window clock test is an input.
 */
module UndoRedo {
  import opened Wrappers
  import PieceTree

  const DefaultMaxHistorySize: nat := 100
  const DefaultMergeWindowMs: nat := 500

  datatype CommandError =
    | ExecutionFailed(msg: string)
    | InvalidState(msg: string)
    | UnsupportedOperation(msg: string)

  datatype OperationType = InsertOp | DeleteOp | CompositeOp | CustomOp

  /** What a command's execution recorded, for use by its undo and redo. */
  datatype Execution = Execution(
    operation: OperationType,
    offset: nat,
    length: nat,
    insertedText: Option<string>,
    deletedText: Option<string>)

  /** The three command kinds; a composite's sub-commands are never run, so only its name is kept. */
  datatype Command =
    | InsertCommand(offset: nat, text: string)
    | DeleteCommand(offset: nat, length: nat)
    | CompositeCommand(name: string)

  // ---------------------------------------------------------------
  // The document operations the commands rely on
  // ---------------------------------------------------------------

  function DocInsert(doc: string, offset: nat, text: string): (r: Option<string>)
    ensures r.Some? <==> offset <= |doc|
    ensures r.Some? ==> |r.value| == |doc| + |text| && r.value[..offset] == doc[..offset]
                        && r.value[offset..offset + |text|] == text && r.value[offset + |text|..] == doc[offset..]
  {
    if offset <= |doc| then Some(doc[..offset] + text + doc[offset..]) else None
  }

  /** Where the assumed insert succeeds, it is the piece table's insert. */
  lemma DocInsertIsPieceTreeInsert(t: PieceTree.Tree, offset: nat, text: string)
    requires PieceTree.Valid(t) && offset <= |PieceTree.GetText(t)|
    ensures DocInsert(PieceTree.GetText(t), offset, text) == Some(PieceTree.GetText(PieceTree.Insert(t, offset, text)))
  {
  }

  function DocDelete(doc: string, offset: nat, length: nat): (r: Option<string>)
    ensures r.Some? <==> offset + length <= |doc|
    ensures r.Some? ==> |r.value| == |doc| - length && r.value[..offset] == doc[..offset]
                        && r.value[offset..] == doc[offset + length..]
  {
    if offset + length <= |doc| then Some(doc[..offset] + doc[offset + length..]) else None
  }

  function DocRange(doc: string, offset: nat, length: nat): string
  {
    if offset + length <= |doc| then doc[offset..offset + length] else []
  }

  // ---------------------------------------------------------------
  // Commands
  // ---------------------------------------------------------------

  /** `Command::execute`: the new text and the record of what was done. */
  function Execute(cmd: Command, doc: string): (r: Result<(string, Execution), CommandError>)
    ensures cmd.InsertCommand? ==>
              (r.Ok? <==> cmd.offset <= |doc|) &&
              (r.Ok? ==> r.value.1 == Execution(InsertOp, cmd.offset, |cmd.text|, Some(cmd.text), None))
    ensures cmd.DeleteCommand? ==>
              (r.Ok? <==> cmd.offset + cmd.length <= |doc|) &&
              (r.Ok? ==> r.value.1.deletedText == Some(doc[cmd.offset..cmd.offset + cmd.length]))
    ensures cmd.CompositeCommand? ==> r.Ok? && r.value.0 == doc
    ensures r.Err? ==> r.error.ExecutionFailed?
  {
    match cmd
    case InsertCommand(offset, text) =>
      (match DocInsert(doc, offset, text)
       case None => Err(ExecutionFailed("Insert failed"))
       case Some(d) => Ok((d, Execution(InsertOp, offset, |text|, Some(text), None))))
    case DeleteCommand(offset, length) =>
      var deleted := DocRange(doc, offset, length);
      (match DocDelete(doc, offset, length)
       case None => Err(ExecutionFailed("Delete failed"))
       case Some(d) => Ok((d, Execution(DeleteOp, offset, length, None, Some(deleted)))))
    case CompositeCommand(_) =>
      Ok((doc, Execution(CompositeOp, 0, 0, None, None)))
  }

  /** `Command::undo`. */
  function Undo(cmd: Command, doc: string, e: Execution): (r: Result<string, CommandError>)
    ensures cmd.CompositeCommand? ==> r == Ok(doc)
    ensures cmd.DeleteCommand? && e.deletedText.None? ==> r == Ok(doc)
  {
    match cmd
    case InsertCommand(_, _) =>
      (match DocDelete(doc, e.offset, e.length)
       case None => Err(ExecutionFailed("Undo insert failed"))
       case Some(d) => Ok(d))
    case DeleteCommand(_, _) =>
      (match e.deletedText
       case None => Ok(doc)
       case Some(text) =>
         match DocInsert(doc, e.offset, text)
         case None => Err(ExecutionFailed("Undo delete failed"))
         case Some(d) => Ok(d))
    case CompositeCommand(_) => Ok(doc)
  }

  /** `Command::redo`. */
  function Redo(cmd: Command, doc: string, e: Execution): (r: Result<string, CommandError>)
    ensures cmd.CompositeCommand? ==> r == Ok(doc)
    ensures cmd.InsertCommand? && e.insertedText.None? ==> r == Ok(doc)
  {
    match cmd
    case InsertCommand(_, _) =>
      (match e.insertedText
       case None => Ok(doc)
       case Some(text) =>
         match DocInsert(doc, e.offset, text)
         case None => Err(ExecutionFailed("Redo insert failed"))
         case Some(d) => Ok(d))
    case DeleteCommand(_, _) =>
      (match DocDelete(doc, e.offset, e.length)
       case None => Err(ExecutionFailed("Redo delete failed"))
       case Some(d) => Ok(d))
    case CompositeCommand(_) => Ok(doc)
  }

  /** `Command::is_mergeable`: only inserts. */
  predicate IsMergeable(cmd: Command)
  {
    cmd.InsertCommand?
  }

  /** The two inserts a merge may combine: typing on, or a non-empty insert at the same offset. */
  predicate Mergeable(self: Command, other: Command)
  {
    self.InsertCommand? && other.InsertCommand? &&
    (other.offset == self.offset + |self.text| || (other.offset == self.offset && other.text != []))
  }

  /**
   * `Command::merge` AS WRITTEN: an insert absorbs a following insert that
   * continues right after its text, or a non-empty insert at its own
   * offset, and in both cases the new text goes after the old.  For an
   * insert at the same offset that is the wrong order: the second insert
   * went in front of the first (`MergeSameOffsetReorders`).
   */
  function Merge(self: Command, other: Command): (r: Option<Command>)
    ensures r.Some? <==> Mergeable(self, other)
    ensures r.Some? ==> r.value.InsertCommand? && r.value.offset == self.offset &&
                        |r.value.text| == |self.text| + |other.text| && r.value.text[..|self.text|] == self.text
    ensures !IsMergeable(self) ==> r.None?
  {
    if self.InsertCommand? && other.InsertCommand? then
      if other.offset == self.offset + |self.text| then Some(InsertCommand(self.offset, self.text + other.text))
      else if other.offset == self.offset && other.text != [] then Some(InsertCommand(self.offset, self.text + other.text))
      else None
    else None
  }

  /** Inserting `a` and then `b` right after it is inserting `a + b`. */
  lemma InsertsCompose(doc: string, offset: nat, a: string, b: string)
    requires offset <= |doc|
    ensures DocInsert(DocInsert(doc, offset, a).value, offset + |a|, b) == DocInsert(doc, offset, a + b)
  {
    var d1 := doc[..offset] + a + doc[offset..];
    assert DocInsert(doc, offset, a) == Some(d1);
    assert d1[..offset + |a|] == doc[..offset] + a;
    assert d1[offset + |a|..] == doc[offset..];
    assert d1[..offset + |a|] + b + d1[offset + |a|..] == doc[..offset] + (a + b) + doc[offset..];
  }

  /** Inserting `a` and then `b` at the same offset is inserting `b + a`. */
  lemma InsertsStack(doc: string, offset: nat, a: string, b: string)
    requires offset <= |doc|
    ensures DocInsert(DocInsert(doc, offset, a).value, offset, b) == DocInsert(doc, offset, b + a)
  {
    var d1 := doc[..offset] + a + doc[offset..];
    assert DocInsert(doc, offset, a) == Some(d1);
    assert d1[..offset] == doc[..offset];
    assert d1[offset..] == a + doc[offset..];
    assert d1[..offset] + b + d1[offset..] == doc[..offset] + (b + a) + doc[offset..];
  }

  /**
   * Continuous typing: when the second insert continues right after the
   * first, the merged insert does to any document what the two did in turn.
   */
  lemma MergeComposes(self: Command, other: Command, doc: string)
    requires Mergeable(self, other) && other.offset == self.offset + |self.text| && self.offset <= |doc|
    ensures var m := Merge(self, other).value;
            DocInsert(doc, m.offset, m.text) == DocInsert(DocInsert(doc, self.offset, self.text).value, other.offset, other.text)
  {
    InsertsCompose(doc, self.offset, self.text, other.text);
  }

  /**
   * As written: "a" at 0 and then "b" at 0 leave "ba", but the
   * merged command inserts "ab", so redoing the merged record after an
   * undo writes "ab".
   */
  lemma MergeSameOffsetReorders()
    ensures Merge(InsertCommand(0, "a"), InsertCommand(0, "b")) == Some(InsertCommand(0, "ab"))
    ensures DocInsert(DocInsert("", 0, "a").value, 0, "b") == Some("ba")
    ensures DocDelete("ba", 0, 2) == Some("")
    ensures Redo(InsertCommand(0, "ab"), "", Execution(InsertOp, 0, 2, Some("ab"), None)) == Ok("ab")
  {
    assert "a" + "b" == "ab";
    InsertsStack("", 0, "a", "b");
    assert "b" + "a" == "ba";
    assert ""[..0] + "ba" + ""[0..] == "ba";
    assert ""[..0] + "ab" + ""[0..] == "ab";
    assert "ba"[..0] + "ba"[2..] == "";
  }

  /** `Command::merge` as evidently intended: at the same offset the new text goes first. */
  function MergeFixed(self: Command, other: Command): (r: Option<Command>)
    ensures r.Some? <==> Mergeable(self, other)
    ensures r.Some? ==> r.value.InsertCommand? && r.value.offset == self.offset &&
                        |r.value.text| == |self.text| + |other.text|
  {
    if !Mergeable(self, other) then None
    else if other.offset == self.offset + |self.text| then Some(InsertCommand(self.offset, self.text + other.text))
    else Some(InsertCommand(self.offset, other.text + self.text))
  }

  /** With the correction, every merged insert does what the two inserts did in turn. */
  lemma MergeFixedComposes(self: Command, other: Command, doc: string)
    requires Mergeable(self, other) && self.offset <= |doc|
    ensures var m := MergeFixed(self, other).value;
            DocInsert(doc, m.offset, m.text) == DocInsert(DocInsert(doc, self.offset, self.text).value, other.offset, other.text)
  {
    if other.offset == self.offset + |self.text| {
      InsertsCompose(doc, self.offset, self.text, other.text);
    } else {
      InsertsStack(doc, self.offset, self.text, other.text);
    }
  }

  /** Executing an insert and undoing it gives back the text; redoing gives the edited text again. */
  lemma InsertUndoRedo(doc: string, offset: nat, text: string)
    requires offset <= |doc|
    ensures var cmd := InsertCommand(offset, text);
            var r := Execute(cmd, doc);
            r.Ok? &&
            Undo(cmd, r.value.0, r.value.1) == Ok(doc) &&
            Redo(cmd, doc, r.value.1) == Ok(r.value.0)
  {
    var d := doc[..offset] + text + doc[offset..];
    assert d[..offset] + d[offset + |text|..] == doc;
  }

  /** Executing a delete records the removed bytes, and undoing it puts them back. */
  lemma DeleteUndoRedo(doc: string, offset: nat, length: nat)
    requires offset + length <= |doc|
    ensures var cmd := DeleteCommand(offset, length);
            var r := Execute(cmd, doc);
            r.Ok? &&
            r.value.0 == doc[..offset] + doc[offset + length..] &&
            Undo(cmd, r.value.0, r.value.1) == Ok(doc) &&
            Redo(cmd, doc, r.value.1) == Ok(r.value.0)
  {
    var d := doc[..offset] + doc[offset + length..];
    assert d[..offset] + doc[offset..offset + length] + d[offset..] == doc;
  }

  // ---------------------------------------------------------------
  // The manager
  // ---------------------------------------------------------------

  datatype Record = Record(command: Command, execution: Execution, isMerged: bool)

  datatype Manager = Manager(
    undoStack: seq<Record>,
    redoStack: seq<Record>,
    maxHistorySize: nat,
    mergeWindowMs: nat,
    hasLastCommandTime: bool)

  /** A call's effect on the manager and the document, and its outcome. */
  datatype Outcome = Outcome(manager: Manager, doc: string, result: Result<(), CommandError>)

  function NewManager(): (m: Manager)
    ensures m.undoStack == [] && m.redoStack == [] && !m.hasLastCommandTime
    ensures m.maxHistorySize == DefaultMaxHistorySize && m.mergeWindowMs == DefaultMergeWindowMs
  {
    Manager([], [], DefaultMaxHistorySize, DefaultMergeWindowMs, false)
  }

  /** `set_max_history_size`: store the bound and drop the oldest records beyond it. */
  function SetMaxHistorySize(m: Manager, size: nat): (r: Manager)
    ensures r.maxHistorySize == size
    ensures |r.undoStack| == if |m.undoStack| > size then size else |m.undoStack|
    ensures r.undoStack == m.undoStack[|m.undoStack| - |r.undoStack|..]
    ensures r.redoStack == m.redoStack && r.hasLastCommandTime == m.hasLastCommandTime
  {
    var keep := if |m.undoStack| > size then size else |m.undoStack|;
    m.(maxHistorySize := size, undoStack := m.undoStack[|m.undoStack| - keep..])
  }

  /**
   * `push_command`: evict the oldest record when the stack is full, then
   * push.  With a bound of 0 and an empty stack the Rust code's eviction
   * removes from an empty vector, which panics; that case is excluded.
   */
  function Push(m: Manager, cmd: Command, e: Execution): (r: Manager)
    requires m.maxHistorySize >= 1 || |m.undoStack| > 0
    ensures |r.undoStack| >= 1 && r.undoStack[|r.undoStack| - 1] == Record(cmd, e, false)
    ensures |m.undoStack| < m.maxHistorySize ==> r.undoStack == m.undoStack + [Record(cmd, e, false)]
    ensures |m.undoStack| >= m.maxHistorySize ==> r.undoStack == m.undoStack[1..] + [Record(cmd, e, false)]
    ensures |m.undoStack| <= m.maxHistorySize && m.maxHistorySize >= 1 ==> |r.undoStack| <= m.maxHistorySize
    ensures r.redoStack == m.redoStack && r.maxHistorySize == m.maxHistorySize
  {
    var kept := if |m.undoStack| >= m.maxHistorySize then m.undoStack[1..] else m.undoStack;
    m.(undoStack := kept + [Record(cmd, e, false)])
  }

  /**
   * `UndoRedoManager::execute` AS WRITTEN.  `withinWindow` stands for the
   * clock test "a previous command ran less than the merge window ago".
   * When the new command merges into the top record, the merged command is
   * executed on the document a second time, although its parts already
   * changed it.
   */
  function ExecuteAsWritten(m: Manager, doc: string, cmd: Command, withinWindow: bool): (r: Outcome)
    requires m.maxHistorySize >= 1 || |m.undoStack| > 0
    ensures Execute(cmd, doc).Err? ==> r == Outcome(m, doc, Err(Execute(cmd, doc).error))
    ensures Execute(cmd, doc).Ok? ==> r.manager.redoStack == []
  {
    match Execute(cmd, doc)
    case Err(e) => Outcome(m, doc, Err(e))
    case Ok((doc1, e1)) =>
      var shouldMerge := IsMergeable(cmd) && m.hasLastCommandTime && withinWindow && |m.undoStack| > 0;
      var m1 := m.(redoStack := []);
      if shouldMerge then
        var top := m1.undoStack[|m1.undoStack| - 1];
        match Merge(top.command, cmd)
        case Some(merged) =>
          (match Execute(merged, doc1)
           case Err(err) => Outcome(m1, doc1, Err(err))
           case Ok((doc2, e2)) =>
             var m2 := m1.(undoStack := m1.undoStack[..|m1.undoStack| - 1] + [Record(merged, e2, true)],
                           hasLastCommandTime := true);
             Outcome(m2, doc2, Ok(())))
        case None => Outcome(Push(m1, cmd, e1).(hasLastCommandTime := true), doc1, Ok(()))
      else
        Outcome(Push(m1, cmd, e1).(hasLastCommandTime := true), doc1, Ok(()))
  }

  /**
   * `UndoRedoManager::execute` as evidently intended: a merge replaces the
   * top record by the corrected merged command with the execution record
   * the merged insert would have produced, without touching the document
   * again.
   */
  function ExecuteManagerCorrected(m: Manager, doc: string, cmd: Command, withinWindow: bool): (r: Outcome)
    requires m.maxHistorySize >= 1 || |m.undoStack| > 0
    ensures Execute(cmd, doc).Err? ==> r == Outcome(m, doc, Err(Execute(cmd, doc).error))
    ensures Execute(cmd, doc).Ok? ==> r.result.Ok? && r.doc == Execute(cmd, doc).value.0 && r.manager.redoStack == []
    ensures Execute(cmd, doc).Ok? ==> r.manager.hasLastCommandTime && |r.manager.undoStack| >= 1
    ensures r.manager.maxHistorySize == m.maxHistorySize
    ensures m.maxHistorySize >= 1 && |m.undoStack| <= m.maxHistorySize ==> |r.manager.undoStack| <= m.maxHistorySize
  {
    match Execute(cmd, doc)
    case Err(e) => Outcome(m, doc, Err(e))
    case Ok((doc1, e1)) =>
      var shouldMerge := IsMergeable(cmd) && m.hasLastCommandTime && withinWindow && |m.undoStack| > 0;
      var m1 := m.(redoStack := []);
      if shouldMerge then
        var top := m1.undoStack[|m1.undoStack| - 1];
        match MergeFixed(top.command, cmd)
        case Some(merged) =>
          var e2 := Execution(InsertOp, merged.offset, |merged.text|, Some(merged.text), None);
          var m2 := m1.(undoStack := m1.undoStack[..|m1.undoStack| - 1] + [Record(merged, e2, true)],
                        hasLastCommandTime := true);
          Outcome(m2, doc1, Ok(()))
        case None => Outcome(Push(m1, cmd, e1).(hasLastCommandTime := true), doc1, Ok(()))
      else
        Outcome(Push(m1, cmd, e1).(hasLastCommandTime := true), doc1, Ok(()))
  }

  /**
   * `UndoRedoManager::undo`: pop the top record and undo it; the record
   * moves to the redo stack when that succeeds and is dropped when it fails.
   */
  function UndoManager(m: Manager, doc: string): (r: Outcome)
    ensures m.undoStack == [] ==> r == Outcome(m, doc, Err(InvalidState("Nothing to undo")))
    ensures m.undoStack != [] ==> r.manager.undoStack == m.undoStack[..|m.undoStack| - 1]
    ensures m.undoStack != [] && r.result.Ok? ==> r.manager.redoStack == m.redoStack + [m.undoStack[|m.undoStack| - 1]]
    ensures m.undoStack != [] && r.result.Err? ==> r.manager.redoStack == m.redoStack && r.doc == doc
  {
    if |m.undoStack| == 0 then Outcome(m, doc, Err(InvalidState("Nothing to undo")))
    else
      var rec := m.undoStack[|m.undoStack| - 1];
      var m1 := m.(undoStack := m.undoStack[..|m.undoStack| - 1]);
      match Undo(rec.command, doc, rec.execution)
      case Err(e) => Outcome(m1, doc, Err(e))
      case Ok(d) => Outcome(m1.(redoStack := m1.redoStack + [rec]), d, Ok(()))
  }

  /** `UndoRedoManager::redo`, the mirror image of `UndoManager`. */
  function RedoManager(m: Manager, doc: string): (r: Outcome)
    ensures m.redoStack == [] ==> r == Outcome(m, doc, Err(InvalidState("Nothing to redo")))
    ensures m.redoStack != [] ==> r.manager.redoStack == m.redoStack[..|m.redoStack| - 1]
    ensures m.redoStack != [] && r.result.Ok? ==> r.manager.undoStack == m.undoStack + [m.redoStack[|m.redoStack| - 1]]
    ensures m.redoStack != [] && r.result.Err? ==> r.manager.undoStack == m.undoStack && r.doc == doc
  {
    if |m.redoStack| == 0 then Outcome(m, doc, Err(InvalidState("Nothing to redo")))
    else
      var rec := m.redoStack[|m.redoStack| - 1];
      var m1 := m.(redoStack := m.redoStack[..|m.redoStack| - 1]);
      match Redo(rec.command, doc, rec.execution)
      case Err(e) => Outcome(m1, doc, Err(e))
      case Ok(d) => Outcome(m1.(undoStack := m1.undoStack + [rec]), d, Ok(()))
  }

  /** `clear`: both stacks empty and the last-command time forgotten. */
  function Clear(m: Manager): (r: Manager)
    ensures r.undoStack == [] && r.redoStack == [] && !r.hasLastCommandTime
    ensures r.maxHistorySize == m.maxHistorySize && r.mergeWindowMs == m.mergeWindowMs
  {
    m.(undoStack := [], redoStack := [], hasLastCommandTime := false)
  }

  predicate CanUndo(m: Manager) { |m.undoStack| > 0 }
  predicate CanRedo(m: Manager) { |m.redoStack| > 0 }

  /**
   * An undo followed by a redo of a successfully executed insert gives
   * back the edited text and the same stacks.
   */
  lemma UndoThenRedoInsert(doc: string, offset: nat, text: string)
    requires offset <= |doc|
    ensures var o1 := ExecuteAsWritten(NewManager(), doc, InsertCommand(offset, text), false);
            var o2 := UndoManager(o1.manager, o1.doc);
            var o3 := RedoManager(o2.manager, o2.doc);
            o2.doc == doc && o3.doc == o1.doc && o3.manager.undoStack == o1.manager.undoStack
            && o3.manager.redoStack == []
  {
    InsertUndoRedo(doc, offset, text);
  }

  /**
   * Typing two adjacent inserts within the merge window and undoing once
   * takes the text back to before both inserts (the intended behaviour).
   */
  lemma MergedTypingUndoesTogether(doc: string, offset: nat, a: string, b: string)
    requires offset <= |doc|
    ensures var o1 := ExecuteManagerCorrected(NewManager(), doc, InsertCommand(offset, a), false);
            var o2 := ExecuteManagerCorrected(o1.manager, o1.doc, InsertCommand(offset + |a|, b), true);
            var o3 := UndoManager(o2.manager, o2.doc);
            o2.doc == doc[..offset] + a + b + doc[offset..] &&
            |o2.manager.undoStack| == 1 &&
            o3.doc == doc && o3.result.Ok?
  {
    var d1 := doc[..offset] + a + doc[offset..];
    assert d1[..offset + |a|] == doc[..offset] + a;
    assert d1[offset + |a|..] == doc[offset..];
    var d2 := d1[..offset + |a|] + b + d1[offset + |a|..];
    assert d2 == doc[..offset] + (a + b) + doc[offset..];
    assert d2[..offset] + d2[offset + |a + b|..] == doc;
  }

  /**
   * As written: typing "a" then "b" right after it, within the
   * merge window, on an empty document leaves "abab", and one undo leaves
   * "ab" instead of the empty text.
   */
  lemma MergeExecutesTwice()
    ensures var o1 := ExecuteAsWritten(NewManager(), "", InsertCommand(0, "a"), false);
            var o2 := ExecuteAsWritten(o1.manager, o1.doc, InsertCommand(1, "b"), true);
            var o3 := UndoManager(o2.manager, o2.doc);
            o1.doc == "a" && o2.doc == "abab" && o3.doc == "ab"
  {
    assert ""[..0] + "a" + ""[0..] == "a";
    assert "a"[..1] + "b" + "a"[1..] == "ab";
    assert "a" + "b" == "ab";
    assert "ab"[..0] + "ab" + "ab"[0..] == "abab";
    var o1 := ExecuteAsWritten(NewManager(), "", InsertCommand(0, "a"), false);
    assert Execute(InsertCommand(0, "a"), "") == Ok(("a", Execution(InsertOp, 0, 1, Some("a"), None)));
    assert o1.doc == "a";
    assert o1.manager.undoStack == [Record(InsertCommand(0, "a"), Execution(InsertOp, 0, 1, Some("a"), None), false)];
    assert Execute(InsertCommand(1, "b"), "a") == Ok(("ab", Execution(InsertOp, 1, 1, Some("b"), None)));
    assert Merge(InsertCommand(0, "a"), InsertCommand(1, "b")) == Some(InsertCommand(0, "ab"));
    assert Execute(InsertCommand(0, "ab"), "ab") == Ok(("abab", Execution(InsertOp, 0, 2, Some("ab"), None)));
    var o2 := ExecuteAsWritten(o1.manager, o1.doc, InsertCommand(1, "b"), true);
    assert o2.doc == "abab";
    assert o2.manager.undoStack == [Record(InsertCommand(0, "ab"), Execution(InsertOp, 0, 2, Some("ab"), None), true)];
    assert DocDelete("abab", 0, 2) == Some("ab");
  }
}
