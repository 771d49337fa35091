/**
 * The document API over a piece tree (`api_layer/document_api.rs`):
 * ranges, statistics, editing, line/column mapping and moving between
 * search results.  Offsets are byte offsets, with one `char` standing for
 * one byte (exact for ASCII).
 */
module DocumentApi {
  import opened Wrappers
  import opened TextUtil
  import PieceTree
  import Find

  /** `get_text_range`: the bytes `[start, end)` when that range is inside the text. */
  function GetTextRange(text: string, start: nat, end: nat): (r: Option<string>)
    ensures r.Some? <==> start <= end <= |text|
    ensures r.Some? ==> |r.value| == end - start && text[..start] + r.value + text[end..] == text
  {
    if start <= end <= |text| then Some(text[start..end]) else None
  }

  // ---------------------------------------------------------------
  // Statistics
  // ---------------------------------------------------------------

  datatype DocumentStats = DocumentStats(charCount: nat, wordCount: nat, lineCount: nat)

  /** A word (a maximal run of non-whitespace) starts at `i`. */
  predicate WordStartsAt(text: string, i: nat)
  {
    i < |text| && !IsWhitespace(text[i]) && (i == 0 || IsWhitespace(text[i - 1]))
  }

  /** Number of words among the first `n` characters (`split_whitespace().count()` for `n = |text|`). */
  function WordsBefore(text: string, n: nat): nat
    requires n <= |text|
  {
    if n == 0 then 0 else WordsBefore(text, n - 1) + (if WordStartsAt(text, n - 1) then 1 else 0)
  }

  /** `str::lines().count()`: one line per newline, plus one for a final line without one. */
  function LineCount(text: string): nat
  {
    CountChar(text, '\n') + (if |text| > 0 && text[|text| - 1] != '\n' then 1 else 0)
  }

  /** `stats`: characters, whitespace-separated words, and lines, counted in one pass. */
  method Stats(text: string) returns (s: DocumentStats)
    ensures s.charCount == |text|
    ensures s.wordCount == WordsBefore(text, |text|)
    ensures s.lineCount == LineCount(text)
    ensures s.wordCount <= s.charCount
  {
    var words := 0;
    var newlines := 0;
    var inWord := false;
    var i := 0;
    while i < |text|
      invariant 0 <= i <= |text|
      invariant words == WordsBefore(text, i) && words <= i
      invariant newlines == CountChar(text[..i], '\n')
      invariant inWord <==> i > 0 && !IsWhitespace(text[i - 1])
    {
      var c := text[i];
      if IsWhitespace(c) {
        inWord := false;
      } else {
        if !inWord {
          words := words + 1;
        }
        inWord := true;
      }
      if c == '\n' {
        newlines := newlines + 1;
      }
      assert text[..i + 1][..i] == text[..i];
      i := i + 1;
    }
    assert text[..i] == text;
    var lines := newlines + (if |text| > 0 && text[|text| - 1] != '\n' then 1 else 0);
    s := DocumentStats(|text|, words, lines);
  }

  // ---------------------------------------------------------------
  // Editing
  // ---------------------------------------------------------------

  /** `insert`: always succeeds; the piece tree splices the text in (or appends it past the end). */
  function Insert(t: PieceTree.Tree, position: nat, text: string): (r: Result<PieceTree.Tree, string>)
    requires PieceTree.Valid(t)
    ensures r.Ok? && PieceTree.Valid(r.value)
    ensures PieceTree.GetText(r.value) == PieceTree.Splice(PieceTree.GetText(t), position, text)
  {
    Ok(PieceTree.Insert(t, position, text))
  }

  /**
   * `delete(start, end)`: delete `end - start` bytes at `start`.  The
   * subtraction is on `usize`, so `start <= end` is required.  The
   * underlying delete is taken to remove the range when it lies inside
   * the text and to leave the text alone otherwise.
   */
  function Delete(text: string, start: nat, end: nat): (r: Result<string, string>)
    requires start <= end
    ensures r.Ok?
    ensures end <= |text| ==> |r.value| == |text| - (end - start) &&
                              r.value[..start] + text[start..end] + r.value[start..] == text
    ensures end > |text| ==> r.value == text
  {
    if end <= |text| then Ok(text[..start] + text[end..]) else Ok(text)
  }

  // ---------------------------------------------------------------
  // Line and column
  // ---------------------------------------------------------------

  /** 1-based line of offset `o`: one more than the newlines before it. */
  function LineOf(text: string, o: nat): nat
    requires o <= |text|
  {
    1 + CountChar(text[..o], '\n')
  }

  /** 1-based column of offset `o`: one more than the characters since its line began. */
  function ColumnOf(text: string, o: nat): nat
    requires o <= |text|
  {
    o - LineStart(text, o) + 1
  }

  /** A (line, column) pair names at most one offset. */
  lemma PositionDeterminesOffset(text: string, a: nat, b: nat)
    requires a <= b <= |text|
    requires LineOf(text, a) == LineOf(text, b) && ColumnOf(text, a) == ColumnOf(text, b)
    ensures a == b
  {
    NewlineAdvancesLine(text, a, b);
    LineStartNoNewline(text, a, b);
  }

  datatype CursorPosition = CursorPosition(line: nat, column: nat, byteOffset: nat)

  /** `cursor_position`: walk the characters before `offset`, counting lines and columns. */
  method CursorPositionOf(text: string, offset: nat) returns (r: Option<CursorPosition>)
    ensures r.None? <==> offset > |text|
    ensures r.Some? ==> r.value == CursorPosition(LineOf(text, offset), ColumnOf(text, offset), offset)
  {
    if offset > |text| {
      return None;
    }
    var line := 1;
    var column := 1;
    var i := 0;
    while i < offset
      invariant 0 <= i <= offset
      invariant line == LineOf(text, i)
      invariant column == ColumnOf(text, i)
    {
      CountCharSnoc(text, i);
      if text[i] == '\n' {
        line := line + 1;
        column := 1;
      } else {
        column := column + 1;
      }
      i := i + 1;
    }
    r := Some(CursorPosition(line, column, offset));
  }

  /**
   * `offset_from_position`: the offset of the `column`-th character
   * (1-based, the newline counted) of line `line`.  Column 0 would make
   * the Rust code's `usize` counter underflow on the target line, so the
   * column must be at least 1.
   */
  method OffsetFromPosition(text: string, line: nat, column: nat) returns (r: Option<nat>)
    requires column >= 1
    ensures r.Some? ==> r.value < |text| && LineOf(text, r.value) == line && ColumnOf(text, r.value) == column
    ensures r.None? ==> forall o :: 0 <= o < |text| ==> !(LineOf(text, o) == line && ColumnOf(text, o) == column)
    ensures forall o :: 0 <= o < |text| && LineOf(text, o) == line && ColumnOf(text, o) == column ==> r == Some(o)
  {
    var currentLine := 1;
    var col := column;
    var i := 0;
    while i < |text|
      invariant 0 <= i <= |text|
      invariant currentLine == LineOf(text, i)
      invariant currentLine == line ==> col >= 1 && col == column - (i - LineStart(text, i))
      invariant currentLine < line ==> col == column
      invariant forall o :: 0 <= o < i ==> !(LineOf(text, o) == line && ColumnOf(text, o) == column)
    {
      if currentLine == line {
        if col == 1 {
          forall o | 0 <= o < |text| && LineOf(text, o) == line && ColumnOf(text, o) == column
            ensures o == i
          {
            if o < i {
            } else {
              PositionDeterminesOffset(text, i, o);
            }
          }
          return Some(i);
        }
        col := col - 1;
      }
      CountCharSnoc(text, i);
      if text[i] == '\n' {
        currentLine := currentLine + 1;
      }
      i := i + 1;
    }
    return None;
  }

  // ---------------------------------------------------------------
  // Moving between search results
  // ---------------------------------------------------------------

  datatype SearchResultApi = SearchResultApi(position: nat, length: nat)

  predicate WellFormed(results: seq<Find.SearchResult>)
  {
    forall i :: 0 <= i < |results| ==> results[i].start <= results[i].end
  }

  function ToApi(r: Find.SearchResult): SearchResultApi
    requires r.start <= r.end
  {
    SearchResultApi(r.start, r.end - r.start)
  }

  /** The first result starting at or after `cursor`, if any. */
  function FirstAtOrAfter(results: seq<Find.SearchResult>, cursor: nat): (r: Option<nat>)
    ensures r.Some? ==> r.value < |results| && results[r.value].start >= cursor &&
                        forall j :: 0 <= j < r.value ==> results[j].start < cursor
    ensures r.None? ==> forall j :: 0 <= j < |results| ==> results[j].start < cursor
  {
    if |results| == 0 then None
    else if results[0].start >= cursor then Some(0)
    else match FirstAtOrAfter(results[1..], cursor)
      case None => None
      case Some(k) => Some(k + 1)
  }

  /** `find_next`: the first result at or after the cursor, else the first result. */
  function FindNext(results: seq<Find.SearchResult>, cursor: nat): (r: Option<SearchResultApi>)
    requires WellFormed(results)
    ensures r.None? <==> results == []
    ensures (exists i :: 0 <= i < |results| && results[i].start >= cursor) ==>
              exists k :: 0 <= k < |results| && results[k].start >= cursor && r == Some(ToApi(results[k])) &&
                          forall j :: 0 <= j < k ==> results[j].start < cursor
    ensures (forall i :: 0 <= i < |results| ==> results[i].start < cursor) && results != [] ==>
              r == Some(ToApi(results[0]))
  {
    match FirstAtOrAfter(results, cursor)
    case Some(k) => Some(ToApi(results[k]))
    case None => if |results| > 0 then Some(ToApi(results[0])) else None
  }

  /** `find_previous`: the last result starting before the cursor. */
  function FindPrevious(results: seq<Find.SearchResult>, cursor: nat): (r: Option<SearchResultApi>)
    requires WellFormed(results)
    ensures r.None? <==> forall i :: 0 <= i < |results| ==> results[i].start >= cursor
    ensures r.Some? ==> exists i :: 0 <= i < |results| && results[i].start < cursor && r.value == ToApi(results[i]) &&
                          forall j :: i < j < |results| ==> results[j].start >= cursor
  {
    if |results| == 0 then None
    else
      var last := results[|results| - 1];
      if last.start < cursor then Some(ToApi(last))
      else FindPrevious(results[..|results| - 1], cursor)
  }

  /** `find_all`: every result as a position and a length, in order. */
  function FindAll(results: seq<Find.SearchResult>): (r: seq<SearchResultApi>)
    requires WellFormed(results)
    ensures |r| == |results|
    ensures forall i :: 0 <= i < |r| ==> r[i].position == results[i].start && r[i].position + r[i].length == results[i].end
  {
    seq(|results|, i requires 0 <= i < |results| && WellFormed(results) => ToApi(results[i]))
  }
}
