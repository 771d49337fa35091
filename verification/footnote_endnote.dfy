/**
 * Footnotes and endnotes (`footnote_endnote.rs`): the seven numbering
 * formats, note records with their reference marks, and the manager that
 * inserts, deletes, renumbers and clears them.  Footnotes and endnotes are
 * kept by the same machinery, `Notes`, once for each kind; the manager's
 * hash maps are Dafny maps.
 */
module FootnoteEndnote {
  import opened Wrappers
  import opened TextUtil
  import Numbering
  import DragSelection

  type Position = DragSelection.DocumentPosition

  // ---------------------------------------------------------------
  // Number formats
  // ---------------------------------------------------------------

  datatype NumberFormat = Arabic | RomanUpper | RomanLower | LetterUpper | LetterLower | Chinese | Star

  /** `to_stars`: one to nine asterisks, cycling.  `to_stars` subtracts 1 from an unsigned number first, so 0 is refused. */
  function Stars(n: nat): string
    requires n >= 1
  {
    Numbering.Repeat('*', (n - 1) % 9 + 1)
  }

  /** The first nine numbers get that many asterisks. */
  lemma StarsFirstNine(n: nat)
    requires 1 <= n <= 9
    ensures Stars(n) == Numbering.Repeat('*', n)
  {
  }

  /** Star numbering repeats every nine numbers. */
  lemma StarsCycle(n: nat)
    requires n >= 1
    ensures Stars(n + 9) == Stars(n)
  {
  }

  lemma StarsExamples()
    ensures Stars(1) == "*" && Stars(3) == "***" && Stars(9) == "*********" && Stars(10) == "*"
  {
    StarsCycle(1);
  }

  const ChineseDigits: seq<char> := ['零', '一', '二', '三', '四', '五', '六', '七', '八', '九']
  const ChineseUnits: seq<string> := ["", "十", "百", "千"]
  const Zero: char := '零'

  /** The largest number, plus one, whose remaining digits still have a unit when the loop is at `pos`. */
  function Capacity(pos: nat): nat
    requires pos < 4
  {
    if pos == 0 then 10000 else if pos == 1 then 1000 else if pos == 2 then 100 else 10
  }

  /**
   * The digit loop of `to_chinese`, from the lowest digit up: a non-zero
   * digit is prefixed with its unit, a zero digit above a non-zero one
   * becomes `零`.  `units` has four entries, so `to_chinese` indexes past it
   * (and panics) for any number of five or more digits.
   */
  function ChineseLoop(num: nat, pos: nat, nonzero: bool, acc: string): string
    requires pos < 4 && 1 <= num < Capacity(pos)
    decreases num
  {
    var d := num % 10;
    var acc' :=
      if d > 0 then [ChineseDigits[d]] + ChineseUnits[pos] + acc
      else if nonzero && pos % 4 != 0 then [Zero] + acc
      else acc;
    if num / 10 == 0 then acc' else ChineseLoop(num / 10, pos + 1, nonzero || d > 0, acc')
  }

  /** The `while result.contains("零零")` replacement loop: every run of `零` shrinks to one. */
  function CollapseZeros(s: string): (r: string)
    ensures |r| <= |s|
  {
    if |s| < 2 then s
    else if s[0] == Zero && s[1] == Zero then CollapseZeros(s[1..])
    else [s[0]] + CollapseZeros(s[1..])
  }

  /** `to_chinese` as the Rust code writes it (the leading and trailing `零` trims never fire, see `ChineseLoopEnds`). */
  function ChineseAsWritten(n: nat): string
    requires n < 10000
  {
    if n == 0 then [Zero] else CollapseZeros(ChineseLoop(n, 0, false, ""))
  }

  predicate EndsClean(s: string)
  {
    |s| >= 1 && s[0] != Zero && s[|s| - 1] != Zero
  }

  /** Loop invariant: the accumulated text is empty until a non-zero digit was seen, and never ends in `零`. */
  lemma {:induction false} ChineseLoopEnds(num: nat, pos: nat, nonzero: bool, acc: string)
    requires pos < 4 && 1 <= num < Capacity(pos)
    requires nonzero <==> |acc| > 0
    requires |acc| > 0 ==> acc[|acc| - 1] != Zero
    ensures EndsClean(ChineseLoop(num, pos, nonzero, acc))
    decreases num
  {
    var d := num % 10;
    var acc' :=
      if d > 0 then [ChineseDigits[d]] + ChineseUnits[pos] + acc
      else if nonzero && pos % 4 != 0 then [Zero] + acc
      else acc;
    if num / 10 != 0 {
      ChineseLoopEnds(num / 10, pos + 1, nonzero || d > 0, acc');
    }
  }

  lemma {:induction false} CollapseKeepsFirst(s: string)
    requires |s| >= 1
    ensures |CollapseZeros(s)| >= 1 && CollapseZeros(s)[0] == s[0]
  {
    if |s| >= 2 {
      CollapseKeepsFirst(s[1..]);
    }
  }

  lemma {:induction false} CollapseKeepsLast(s: string)
    requires |s| >= 1 && s[|s| - 1] != Zero
    ensures |CollapseZeros(s)| >= 1 && CollapseZeros(s)[|CollapseZeros(s)| - 1] != Zero
  {
    if |s| >= 2 {
      CollapseKeepsLast(s[1..]);
    }
  }

  lemma CollapseKeepsEnds(s: string)
    requires EndsClean(s)
    ensures EndsClean(CollapseZeros(s))
  {
    CollapseKeepsFirst(s);
    CollapseKeepsLast(s);
  }

  /** The numeral never starts or ends with `零`, so the Rust code's two trimming steps leave it alone. */
  lemma ChineseHasCleanEnds(n: nat)
    requires 1 <= n < 10000
    ensures EndsClean(ChineseAsWritten(n))
  {
    ChineseLoopEnds(n, 0, false, "");
    CollapseKeepsEnds(ChineseLoop(n, 0, false, ""));
  }

  /**
   * Chinese numerals as intended: a leading one-ten is written `十`, not
   * `一十`, so 10 to 19 lose their first character.
   */
  function ChineseNumeral(n: nat): string
    requires n < 10000
  {
    var s := ChineseAsWritten(n);
    if 10 <= n < 20 && |s| > 0 then s[1..] else s
  }

  /** `to_chinese` as written gives 10 as `一十` and 11 as `一十一`. */
  lemma ChineseTeensAsWritten()
    ensures ChineseAsWritten(10) == "一十"
    ensures ChineseAsWritten(11) == "一十一"
  {
  }

  lemma ChineseNumeralExamples()
    ensures ChineseNumeral(1) == "一"
    ensures ChineseNumeral(10) == "十" && ChineseNumeral(11) == "十一"
    ensures ChineseNumeral(20) == "二十" && ChineseNumeral(21) == "二十一"
  {
    ChineseTeensAsWritten();
  }

  lemma ChineseNumeralHundreds()
    ensures ChineseNumeral(100) == "一百" && ChineseNumeral(123) == "一百二十三"
  {
    ChineseOneHundred();
    ChineseOneTwoThree();
  }

  lemma ChineseOneHundred()
    ensures ChineseNumeral(100) == "一百"
  {
    assert ChineseLoop(100, 0, false, "") == ChineseLoop(10, 1, false, "");
    assert ChineseLoop(10, 1, false, "") == ChineseLoop(1, 2, false, "");
    assert ChineseLoop(1, 2, false, "") == "一百";
    assert CollapseZeros("一百") == "一百";
  }

  lemma ChineseOneTwoThree()
    ensures ChineseNumeral(123) == "一百二十三"
  {
    ChineseLoopOneTwoThree();
    CollapseOneTwoThree();
  }

  lemma ChineseLoopOneTwoThree()
    ensures ChineseLoop(123, 0, false, "") == "一百二十三"
  {
    ChineseLoopThree();
    ChineseLoopTwenty();
    ChineseLoopHundred();
  }

  lemma ChineseLoopThree()
    ensures ChineseLoop(123, 0, false, "") == ChineseLoop(12, 1, true, "三")
  {
  }

  lemma ChineseLoopTwenty()
    ensures ChineseLoop(12, 1, true, "三") == ChineseLoop(1, 2, true, "二十三")
  {
  }

  lemma ChineseLoopHundred()
    ensures ChineseLoop(1, 2, true, "二十三") == "一百二十三"
  {
  }

  lemma CollapseOneTwoThree()
    ensures CollapseZeros("一百二十三") == "一百二十三"
  {
    assert CollapseZeros("十三") == "十三";
    assert CollapseZeros("百二十三") == "百二十三";
  }

  lemma ChineseNumeralInnerZero()
    ensures ChineseNumeral(105) == "一百零五"
  {
    ChineseLoopFive(105, 10);
    ChineseLoopZero(10, 1, "五");
    assert ChineseLoop(1, 2, true, "零五") == "一百零五";
    assert CollapseZeros("零五") == "零五";
    assert CollapseZeros("百零五") == "百零五";
  }

  /** Zeros between digits are written once, however many there are. */
  lemma ChineseNumeralInnerZeros()
    ensures ChineseNumeral(1005) == "一千零五"
  {
    ChineseLoopOneThousandFive();
    CollapseOneThousandFive();
  }

  lemma ChineseLoopOneThousandFive()
    ensures ChineseLoop(1005, 0, false, "") == "一千零零五"
  {
    ChineseLoopFive(1005, 100);
    ChineseLoopZero(100, 1, "五");
    ChineseLoopZero(10, 2, "零五");
    ChineseLoopThousand();
  }

  /** A lowest digit 5 starts the text with `五`. */
  lemma ChineseLoopFive(num: nat, k: nat)
    requires num == 10 * k + 5 && 10 <= num < 10000
    ensures ChineseLoop(num, 0, false, "") == ChineseLoop(k, 1, true, "五")
  {
    assert num % 10 == 5 && num / 10 == k;
    assert [ChineseDigits[5]] + ChineseUnits[0] + "" == "五";
  }

  /** A zero digit above a non-zero one adds one `零`. */
  lemma ChineseLoopZero(num: nat, pos: nat, acc: string)
    requires 1 <= pos < 3 && num % 10 == 0 && 10 <= num < Capacity(pos)
    ensures ChineseLoop(num, pos, true, acc) == ChineseLoop(num / 10, pos + 1, true, [Zero] + acc)
  {
  }

  lemma ChineseLoopThousand()
    ensures ChineseLoop(1, 3, true, "零零五") == "一千零零五"
  {
  }

  lemma CollapseOneThousandFive()
    ensures CollapseZeros("一千零零五") == "一千零五"
  {
    assert CollapseZeros("零五") == "零五";
    assert CollapseZeros("零零五") == "零五";
    assert CollapseZeros("千零零五") == "千零五";
  }

  /** Every number of the teens is `十` followed by its ones digit, if any. */
  lemma ChineseNumeralTeens(n: nat)
    requires 10 <= n < 20
    ensures ChineseNumeral(n) == "十" + (if n == 10 then "" else [ChineseDigits[n - 10]])
  {
    if n == 10 {
      ChineseTeensAsWritten();
    } else {
      var c := ChineseDigits[n - 10];
      assert ChineseLoop(n, 0, false, "") == ChineseLoop(1, 1, true, [c]);
      assert ChineseLoop(1, 1, true, [c]) == ['一', '十', c];
      assert CollapseZeros([c]) == [c];
      assert CollapseZeros(['十', c]) == ['十', c];
      assert CollapseZeros(['一', '十', c]) == ['一', '十', c];
    }
  }

  /** A number the formatter can write without panicking. */
  predicate Formattable(fmt: NumberFormat, n: nat)
  {
    (fmt == Star ==> n >= 1) && (fmt == Chinese ==> n < 10000)
  }

  /**
   * `NumberFormat::format`, with the Chinese numeral as `to_chinese`
   * writes it (10 is `一十`).
   */
  function Format(fmt: NumberFormat, n: nat): (r: string)
    requires Formattable(fmt, n)
    ensures fmt == Arabic ==> (forall i :: 0 <= i < |r| ==> IsDigit(r[i])) && DigitsValue(r) == n
    ensures fmt == RomanUpper ==> r == Numbering.StandardRoman(n)
    ensures fmt == LetterUpper ==> Numbering.IsUpperWord(r) && Numbering.LetterValue(r) == n
    ensures fmt == Chinese ==> (n == 0 ==> r == [Zero]) && (n > 0 ==> EndsClean(r))
  {
    match fmt
    case Arabic => NatToStringRoundTrip(n); NatToString(n)
    case RomanUpper => Numbering.RomanUpperIsStandard(n); Numbering.RomanUpper(n)
    case RomanLower => Numbering.RomanLower(n)
    case LetterUpper => Numbering.LetterRoundTrip(n); Numbering.LetterUpper(n)
    case LetterLower => Numbering.LetterLower(n)
    case Chinese => ChineseEnds(n); ChineseAsWritten(n)
    case Star => Stars(n)
  }

  lemma ChineseEnds(n: nat)
    requires n < 10000
    ensures n == 0 ==> ChineseAsWritten(n) == [Zero]
    ensures n > 0 ==> EndsClean(ChineseAsWritten(n))
  {
    if n > 0 {
      ChineseHasCleanEnds(n);
    }
  }

  // ---------------------------------------------------------------
  // Notes
  // ---------------------------------------------------------------

  datatype Placement = PageBottom | BeneathText | SectionEnd | DocumentEnd

  datatype Reference = Reference(
    id: nat,
    marker: string,
    position: Position,
    isCrossReference: bool,
    referencedId: Option<nat>)

  datatype Kind = FootnoteKind | EndnoteKind

  /**
   * A footnote or endnote.  Content is the list of paragraph texts; the
   * layout fields (page position, height, continuation, section) are left out.
   */
  datatype Note = Note(
    id: nat,
    reference: Reference,
    content: seq<string>,
    placement: Placement,
    numberFormat: NumberFormat,
    startNumber: nat,
    customMarker: Option<string>)

  /** `Footnote::new` / `Endnote::new`: footnotes at the page bottom in Arabic, endnotes at the document end in lower-case Roman, both numbered 1. */
  function NewNote(kind: Kind, id: nat, marker: string, position: Position, content: seq<string>): (r: Note)
    ensures r.customMarker.None? && r.startNumber == 1 && r.reference.marker == marker
  {
    Note(id, Reference(id, marker, position, false, None), content,
         if kind == FootnoteKind then PageBottom else DocumentEnd,
         if kind == FootnoteKind then Arabic else RomanLower,
         1, None)
  }

  /** `with_custom_marker`. */
  function WithCustomMarker(kind: Kind, id: nat, marker: string, position: Position, content: seq<string>): Note
  {
    NewNote(kind, id, marker, position, content).(customMarker := Some(marker))
  }

  predicate CanDisplay(note: Note)
  {
    note.customMarker.Some? || Formattable(note.numberFormat, note.startNumber)
  }

  /** `get_display_marker`: the custom marker if there is one, else the formatted start number. */
  function DisplayMarker(note: Note): string
    requires CanDisplay(note)
  {
    match note.customMarker
    case Some(m) => m
    case None => Format(note.numberFormat, note.startNumber)
  }

  /** A custom marker is shown as given, whatever the number and format say. */
  lemma CustomMarkerWins(note: Note, m: string)
    ensures DisplayMarker(note.(customMarker := Some(m))) == m
  {
  }

  /** Fresh notes show `1` (footnotes) and `i` (endnotes); a custom-marked one shows its marker. */
  lemma DisplayOfNewNotes(id: nat, marker: string, position: Position, content: seq<string>)
    ensures DisplayMarker(NewNote(FootnoteKind, id, marker, position, content)) == "1"
    ensures DisplayMarker(NewNote(EndnoteKind, id, marker, position, content)) == "i"
    ensures DisplayMarker(WithCustomMarker(FootnoteKind, id, marker, position, content)) == marker
  {
    Numbering.RomanLowerExamples();
  }

  // ---------------------------------------------------------------
  // Reference lists
  // ---------------------------------------------------------------

  function Offset(r: Reference): nat
  {
    r.position.charOffset
  }

  predicate SortedByOffset(s: seq<Reference>)
  {
    forall i, j :: 0 <= i < j < |s| ==> Offset(s[i]) <= Offset(s[j])
  }

  /** Insert `x` after every element whose offset is not larger: the step of a stable insertion sort. */
  function InsertByOffset(x: Reference, s: seq<Reference>): (r: seq<Reference>)
    ensures |r| == |s| + 1
    ensures multiset(r) == multiset(s) + multiset{x}
  {
    if |s| == 0 then [x]
    else if Offset(s[|s| - 1]) <= Offset(x) then s + [x]
    else
      var p := s[..|s| - 1];
      assert s == p + [s[|s| - 1]];
      InsertByOffset(x, p) + [s[|s| - 1]]
  }

  /** `sort_by_key(|r| r.position.char_offset)`: a stable sort by character offset. */
  function SortByOffset(s: seq<Reference>): (r: seq<Reference>)
    ensures |r| == |s|
    ensures multiset(r) == multiset(s)
  {
    if |s| == 0 then []
    else
      var p := s[..|s| - 1];
      assert s == p + [s[|s| - 1]];
      InsertByOffset(s[|s| - 1], SortByOffset(p))
  }

  lemma {:induction false} InsertByOffsetSorted(x: Reference, s: seq<Reference>)
    requires SortedByOffset(s)
    ensures SortedByOffset(InsertByOffset(x, s))
  {
    if |s| > 0 && Offset(s[|s| - 1]) > Offset(x) {
      var p := s[..|s| - 1];
      InsertByOffsetSorted(x, p);
      var q := InsertByOffset(x, p);
      forall k | 0 <= k < |q|
        ensures Offset(q[k]) <= Offset(s[|s| - 1])
      {
        assert q[k] in multiset(q);
        assert q[k] in multiset(p) + multiset{x};
        if q[k] != x {
          assert q[k] in p;
        }
      }
    }
  }

  /** The sort yields offsets in non-decreasing order. */
  lemma {:induction false} SortByOffsetSorted(s: seq<Reference>)
    ensures SortedByOffset(SortByOffset(s))
  {
    if |s| > 0 {
      SortByOffsetSorted(s[..|s| - 1]);
      InsertByOffsetSorted(s[|s| - 1], SortByOffset(s[..|s| - 1]));
    }
  }

  /** References already in document order are left exactly as they are (the sort is stable). */
  lemma {:induction false} SortOfSortedIsIdentity(s: seq<Reference>)
    requires SortedByOffset(s)
    ensures SortByOffset(s) == s
  {
    if |s| > 0 {
      var p, x := s[..|s| - 1], s[|s| - 1];
      assert SortedByOffset(p) by {
        forall i, j | 0 <= i < j < |p|
          ensures Offset(p[i]) <= Offset(p[j])
        {
          assert p[i] == s[i] && p[j] == s[j];
        }
      }
      SortOfSortedIsIdentity(p);
      assert SortByOffset(s) == InsertByOffset(x, p);
      if |p| > 0 {
        assert Offset(p[|p| - 1]) <= Offset(x) by {
          assert p[|p| - 1] == s[|s| - 2];
        }
      }
      assert InsertByOffset(x, p) == p + [x];
      ButLastPlusLast(s);
    }
  }

  /** A non-empty sequence is its front followed by its last element. */
  lemma ButLastPlusLast(s: seq<Reference>)
    requires |s| > 0
    ensures s[..|s| - 1] + [s[|s| - 1]] == s
  {
  }

  /** The ids of the references. */
  function IdSet(s: seq<Reference>): set<nat>
  {
    if |s| == 0 then {} else IdSet(s[..|s| - 1]) + {s[|s| - 1].id}
  }

  /** No id occurs twice: each reference's id is new with respect to those before it. */
  predicate DistinctIds(s: seq<Reference>)
  {
    |s| == 0 || (DistinctIds(s[..|s| - 1]) && s[|s| - 1].id !in IdSet(s[..|s| - 1]))
  }

  lemma {:induction false} InsertByOffsetIds(x: Reference, s: seq<Reference>)
    requires DistinctIds(s) && x.id !in IdSet(s)
    ensures DistinctIds(InsertByOffset(x, s))
    ensures IdSet(InsertByOffset(x, s)) == IdSet(s) + {x.id}
  {
    var r := InsertByOffset(x, s);
    if |s| == 0 {
      assert r == [x];
      assert r[..0] == [];
    } else if Offset(s[|s| - 1]) <= Offset(x) {
      assert r == s + [x];
      assert r[..|r| - 1] == s;
    } else {
      var p := s[..|s| - 1];
      var last := s[|s| - 1];
      InsertByOffsetIds(x, p);
      var q := InsertByOffset(x, p);
      assert r == q + [last];
      assert r[..|r| - 1] == q;
    }
  }

  /** The same facts read from the front, the direction renumbering walks. */
  lemma {:induction false} DistinctIdsFront(s: seq<Reference>)
    requires DistinctIds(s) && |s| >= 1
    ensures DistinctIds(s[1..]) && s[0].id !in IdSet(s[1..])
    ensures IdSet(s) == {s[0].id} + IdSet(s[1..])
  {
    if |s| == 1 {
      assert s[1..] == [];
    } else {
      var p := s[..|s| - 1];
      DistinctIdsFront(p);
      assert p[1..] == s[1..][..|s| - 2];
      assert p[0] == s[0];
    }
  }

  lemma {:induction false} IdSetFront(s: seq<Reference>)
    requires |s| >= 1
    ensures IdSet(s) == {s[0].id} + IdSet(s[1..])
  {
    if |s| > 1 {
      var p := s[..|s| - 1];
      IdSetFront(p);
      assert p[1..] == s[1..][..|s| - 2];
    }
  }

  /** Sorting keeps the ids and their uniqueness. */
  lemma {:induction false} SortByOffsetIds(s: seq<Reference>)
    requires DistinctIds(s)
    ensures DistinctIds(SortByOffset(s)) && IdSet(SortByOffset(s)) == IdSet(s)
  {
    if |s| > 0 {
      var p := s[..|s| - 1];
      SortByOffsetIds(p);
      InsertByOffsetIds(s[|s| - 1], SortByOffset(p));
    }
  }

  /** `retain(|r| r.id != id)`. */
  function WithoutId(s: seq<Reference>, id: nat): (r: seq<Reference>)
    ensures |r| <= |s|
  {
    if |s| == 0 then []
    else WithoutId(s[..|s| - 1], id) + (if s[|s| - 1].id == id then [] else [s[|s| - 1]])
  }

  /** Exactly the references with another id survive. */
  lemma {:induction false} WithoutIdMembers(s: seq<Reference>, id: nat, x: Reference)
    ensures x in WithoutId(s, id) <==> x in s && x.id != id
  {
    if |s| > 0 {
      var p := s[..|s| - 1];
      WithoutIdMembers(p, id, x);
      assert s == p + [s[|s| - 1]];
    }
  }

  lemma {:induction false} WithoutIdIdSet(s: seq<Reference>, id: nat)
    ensures IdSet(WithoutId(s, id)) == IdSet(s) - {id}
  {
    if |s| > 0 {
      var p := s[..|s| - 1];
      var last := s[|s| - 1];
      WithoutIdIdSet(p, id);
      var q := WithoutId(p, id);
      if last.id != id {
        var r := q + [last];
        assert WithoutId(s, id) == r;
        assert r[..|r| - 1] == q;
      } else {
        assert WithoutId(s, id) == q;
      }
    }
  }

  lemma {:induction false} WithoutIdDistinct(s: seq<Reference>, id: nat)
    requires DistinctIds(s)
    ensures DistinctIds(WithoutId(s, id))
  {
    if |s| > 0 {
      var p := s[..|s| - 1];
      var last := s[|s| - 1];
      WithoutIdDistinct(p, id);
      WithoutIdIdSet(p, id);
      var q := WithoutId(p, id);
      if last.id != id {
        var r := q + [last];
        assert WithoutId(s, id) == r;
        assert r[..|r| - 1] == q;
      } else {
        assert WithoutId(s, id) == q;
      }
    }
  }

  lemma {:induction false} InIdSet(s: seq<Reference>, j: nat)
    requires j < |s|
    ensures s[j].id in IdSet(s)
  {
    if j < |s| - 1 {
      InIdSet(s[..|s| - 1], j);
    }
  }

  /** References that are not cross-references and whose note exists: the ones renumbering counts. */
  function NumberedCount(keys: set<nat>, refs: seq<Reference>): nat
  {
    if |refs| == 0 then 0
    else (if refs[0].id in keys && !refs[0].isCrossReference then 1 else 0) + NumberedCount(keys, refs[1..])
  }

  lemma {:induction false} NumberedCountAppend(keys: set<nat>, a: seq<Reference>, b: seq<Reference>)
    ensures NumberedCount(keys, a + b) == NumberedCount(keys, a) + NumberedCount(keys, b)
  {
    if |a| > 0 {
      assert (a + b)[1..] == a[1..] + b;
      NumberedCountAppend(keys, a[1..], b);
    } else {
      assert a + b == b;
    }
  }

  lemma {:induction false} NumberedCountInsert(keys: set<nat>, x: Reference, s: seq<Reference>)
    ensures NumberedCount(keys, InsertByOffset(x, s)) == NumberedCount(keys, s) + NumberedCount(keys, [x])
  {
    if |s| == 0 {
    } else if Offset(s[|s| - 1]) <= Offset(x) {
      NumberedCountAppend(keys, s, [x]);
    } else {
      var p := s[..|s| - 1];
      var last := [s[|s| - 1]];
      NumberedCountInsert(keys, x, p);
      NumberedCountAppend(keys, InsertByOffset(x, p), last);
      NumberedCountAppend(keys, p, last);
      assert s == p + last;
    }
  }

  /** Sorting does not change how many references get a number. */
  lemma {:induction false} NumberedCountSorted(keys: set<nat>, s: seq<Reference>)
    ensures NumberedCount(keys, SortByOffset(s)) == NumberedCount(keys, s)
  {
    if |s| > 0 {
      var p := s[..|s| - 1];
      NumberedCountSorted(keys, p);
      NumberedCountInsert(keys, s[|s| - 1], SortByOffset(p));
      NumberedCountAppend(keys, p, [s[|s| - 1]]);
      ButLastPlusLast(s);
      assert SortByOffset(s) == InsertByOffset(s[|s| - 1], SortByOffset(p));
    }
  }

  /** Every number from `start` on, `count` of them, can be formatted (the limits are monotone, so the two ends decide). */
  predicate Numberable(fmt: NumberFormat, start: nat, count: nat)
  {
    count == 0 || ((fmt == Star ==> start >= 1) && (fmt == Chinese ==> start + count <= 10000))
  }

  // ---------------------------------------------------------------
  // Renumbering
  // ---------------------------------------------------------------

  /** Whether renumbering gives this reference a number. */
  predicate Counted(keys: set<nat>, ref: Reference)
  {
    ref.id in keys && !ref.isCrossReference
  }

  /** The note with number `n`: its start number and its reference's marker change. */
  function Renumbered(note: Note, n: nat, fmt: NumberFormat): Note
    requires Formattable(fmt, n)
  {
    note.(startNumber := n, reference := note.reference.(marker := Format(fmt, n)))
  }

  /** `after` is `before` given number `n`. */
  predicate NumberedAs(after: Note, before: Note, n: nat, fmt: NumberFormat)
  {
    Formattable(fmt, n) && after == Renumbered(before, n, fmt)
  }

  /** One turn of the renumbering loop: a counted reference's note takes number `n`. */
  function StepNotes(notes: map<nat, Note>, ref: Reference, n: nat, fmt: NumberFormat): (r: map<nat, Note>)
    requires Counted(notes.Keys, ref) ==> Formattable(fmt, n)
    ensures r.Keys == notes.Keys
  {
    if Counted(notes.Keys, ref) then notes[ref.id := Renumbered(notes[ref.id], n, fmt)] else notes
  }

  /** The next number after one turn of the loop. */
  function StepNumber(keys: set<nat>, ref: Reference, n: nat): nat
  {
    if Counted(keys, ref) then n + 1 else n
  }

  /** The renumbering loop over references in offset order, with `n` the next number to give out. */
  function RenumberFrom(notes: map<nat, Note>, sorted: seq<Reference>, n: nat, fmt: NumberFormat): (r: map<nat, Note>)
    requires Numberable(fmt, n, NumberedCount(notes.Keys, sorted))
    ensures r.Keys == notes.Keys
  {
    if |sorted| == 0 then notes
    else RenumberFrom(StepNotes(notes, sorted[0], n, fmt), sorted[1..], StepNumber(notes.Keys, sorted[0], n), fmt)
  }

  /** A note whose id the remaining references do not mention is left alone. */
  lemma {:induction false} RenumberFromKeeps(notes: map<nat, Note>, sorted: seq<Reference>, n: nat, fmt: NumberFormat, id: nat)
    requires Numberable(fmt, n, NumberedCount(notes.Keys, sorted))
    requires id in notes && id !in IdSet(sorted)
    ensures RenumberFrom(notes, sorted, n, fmt)[id] == notes[id]
  {
    if |sorted| > 0 {
      IdSetFront(sorted);
      RenumberFromKeeps(StepNotes(notes, sorted[0], n, fmt), sorted[1..], StepNumber(notes.Keys, sorted[0], n), fmt, id);
    }
  }

  /** Renumbering rewrites only the number and the marker of a note. */
  lemma {:induction false} RenumberFromShape(notes: map<nat, Note>, sorted: seq<Reference>, n: nat, fmt: NumberFormat, id: nat)
    requires Numberable(fmt, n, NumberedCount(notes.Keys, sorted))
    requires id in notes
    ensures var after := RenumberFrom(notes, sorted, n, fmt)[id];
      after == notes[id].(startNumber := after.startNumber, reference := notes[id].reference.(marker := after.reference.marker))
  {
    if |sorted| > 0 {
      RenumberFromShape(StepNotes(notes, sorted[0], n, fmt), sorted[1..], StepNumber(notes.Keys, sorted[0], n), fmt, id);
    }
  }

  /** A note whose id only cross-references mention is left alone too. */
  lemma {:induction false} RenumberFromSkips(notes: map<nat, Note>, sorted: seq<Reference>, n: nat, fmt: NumberFormat, id: nat)
    requires Numberable(fmt, n, NumberedCount(notes.Keys, sorted))
    requires id in notes && forall x | x in sorted && x.id == id :: x.isCrossReference
    ensures RenumberFrom(notes, sorted, n, fmt)[id] == notes[id]
  {
    if |sorted| > 0 {
      assert sorted[0] in sorted;
      assert forall x | x in sorted[1..] :: x in sorted;
      RenumberFromSkips(StepNotes(notes, sorted[0], n, fmt), sorted[1..], StepNumber(notes.Keys, sorted[0], n), fmt, id);
    }
  }

  /** A counted reference has fewer counted references before it than there are in all. */
  lemma CountedBefore(keys: set<nat>, s: seq<Reference>, i: nat)
    requires i < |s| && Counted(keys, s[i])
    ensures NumberedCount(keys, s[..i]) < NumberedCount(keys, s)
  {
    NumberedCountAppend(keys, s[..i], s[i..]);
    assert s == s[..i] + s[i..];
  }

  lemma RenumberFromFirst(notes: map<nat, Note>, sorted: seq<Reference>, n: nat, fmt: NumberFormat)
    requires Numberable(fmt, n, NumberedCount(notes.Keys, sorted))
    requires DistinctIds(sorted) && |sorted| >= 1 && Counted(notes.Keys, sorted[0])
    ensures NumberedAs(RenumberFrom(notes, sorted, n, fmt)[sorted[0].id], notes[sorted[0].id], n, fmt)
  {
    var id := sorted[0].id;
    var stepped := StepNotes(notes, sorted[0], n, fmt);
    assert RenumberFrom(notes, sorted, n, fmt)[id] == stepped[id] by {
      RenumberFirstReady(notes, sorted, n, fmt);
      RenumberFromUnfold(notes, sorted, n, fmt);
      RenumberFromKeeps(stepped, sorted[1..], n + 1, fmt, id);
    }
    assert NumberedAs(stepped[id], notes[id], n, fmt) by {
      RenumberFromUnfold(notes, sorted, n, fmt);
      StepNotesCounted(notes, sorted[0], n, fmt);
    }
  }

  /** One turn of the loop, taken for a counted first reference. */
  lemma RenumberFromUnfold(notes: map<nat, Note>, sorted: seq<Reference>, n: nat, fmt: NumberFormat)
    requires Numberable(fmt, n, NumberedCount(notes.Keys, sorted))
    requires |sorted| >= 1 && Counted(notes.Keys, sorted[0])
    ensures Formattable(fmt, n)
    ensures Numberable(fmt, n + 1, NumberedCount(notes.Keys, sorted[1..]))
    ensures RenumberFrom(notes, sorted, n, fmt) == RenumberFrom(StepNotes(notes, sorted[0], n, fmt), sorted[1..], n + 1, fmt)
  {
    assert StepNumber(notes.Keys, sorted[0], n) == n + 1;
  }

  /** A counted reference's note takes the number. */
  lemma StepNotesCounted(notes: map<nat, Note>, ref: Reference, n: nat, fmt: NumberFormat)
    requires Counted(notes.Keys, ref) && Formattable(fmt, n)
    ensures ref.id in notes && NumberedAs(StepNotes(notes, ref, n, fmt)[ref.id], notes[ref.id], n, fmt)
  {
  }

  /** What the first turn of the loop leaves for the rest of it, when the first reference is counted. */
  lemma RenumberFirstReady(notes: map<nat, Note>, sorted: seq<Reference>, n: nat, fmt: NumberFormat)
    requires Numberable(fmt, n, NumberedCount(notes.Keys, sorted))
    requires DistinctIds(sorted) && |sorted| >= 1 && Counted(notes.Keys, sorted[0])
    ensures Formattable(fmt, n) && sorted[0].id !in IdSet(sorted[1..])
    ensures Numberable(fmt, n + 1, NumberedCount(notes.Keys, sorted[1..]))
  {
    DistinctIdsFront(sorted);
  }

  /** Counting a non-empty prefix: the first reference, then the rest of the prefix. */
  lemma NumberedCountPrefix(keys: set<nat>, sorted: seq<Reference>, i: nat)
    requires 0 < i < |sorted|
    ensures NumberedCount(keys, sorted[..i]) == StepNumber(keys, sorted[0], 0) + NumberedCount(keys, sorted[1..][..i - 1])
  {
    assert sorted[..i][1..] == sorted[1..][..i - 1];
  }

  /**
   * The `i`-th reference in offset order, if it is counted, gets the
   * number `n` plus the count of counted references before it, and the
   * marker that number formats to.
   */
  lemma RenumberFromNumbers(notes: map<nat, Note>, sorted: seq<Reference>, n: nat, fmt: NumberFormat, i: nat)
    requires Numberable(fmt, n, NumberedCount(notes.Keys, sorted))
    requires DistinctIds(sorted) && i < |sorted| && Counted(notes.Keys, sorted[i])
    ensures NumberedAs(RenumberFrom(notes, sorted, n, fmt)[sorted[i].id], notes[sorted[i].id],
                       n + NumberedCount(notes.Keys, sorted[..i]), fmt)
  {
    RenumberFromGives(notes, sorted, n, fmt, i, sorted[i].id, n + NumberedCount(notes.Keys, sorted[..i]));
  }

  /** The same, with the note's id and its number `m` named. */
  lemma {:induction false} RenumberFromGives(notes: map<nat, Note>, sorted: seq<Reference>, n: nat, fmt: NumberFormat, i: nat, id: nat, m: nat)
    requires Numberable(fmt, n, NumberedCount(notes.Keys, sorted))
    requires DistinctIds(sorted) && i < |sorted| && Counted(notes.Keys, sorted[i])
    requires id == sorted[i].id && m == n + NumberedCount(notes.Keys, sorted[..i])
    ensures id in notes && NumberedAs(RenumberFrom(notes, sorted, n, fmt)[id], notes[id], m, fmt)
  {
    if i == 0 {
      RenumberFromFirst(notes, sorted, n, fmt);
    } else {
      RenumberStepReady(notes, sorted, n, fmt, i);
      RenumberFromGives(StepNotes(notes, sorted[0], n, fmt), sorted[1..], StepNumber(notes.Keys, sorted[0], n), fmt, i - 1, id, m);
    }
  }

  /** What one turn of the loop leaves for the rest of it: the next number still fits, and the `i`-th reference is next-but-`i - 1`. */
  lemma RenumberStepReady(notes: map<nat, Note>, sorted: seq<Reference>, n: nat, fmt: NumberFormat, i: nat)
    requires Numberable(fmt, n, NumberedCount(notes.Keys, sorted))
    requires DistinctIds(sorted) && 0 < i < |sorted| && Counted(notes.Keys, sorted[i])
    ensures DistinctIds(sorted[1..]) && sorted[1..][i - 1] == sorted[i] && sorted[i].id != sorted[0].id
    ensures Numberable(fmt, StepNumber(notes.Keys, sorted[0], n), NumberedCount(notes.Keys, sorted[1..]))
    ensures n + NumberedCount(notes.Keys, sorted[..i]) == StepNumber(notes.Keys, sorted[0], n) + NumberedCount(notes.Keys, sorted[1..][..i - 1])
  {
    DistinctIdsFront(sorted);
    InIdSet(sorted[1..], i - 1);
    NumberedCountPrefix(notes.Keys, sorted, i);
  }

  // ---------------------------------------------------------------
  // Note lists: one for footnotes, one for endnotes
  // ---------------------------------------------------------------

  /** The notes by id, their references in insertion order, and the id counter. */
  datatype Notes = Notes(notes: map<nat, Note>, refs: seq<Reference>, nextId: nat)

  const NoNotes := Notes(map[], [], 1)

  /**
   * What the manager's operations keep: each reference has its note and
   * each note its reference, ids are unique, every note is stored under
   * its own id, and the counter is above every id in use.
   */
  predicate Valid(l: Notes)
  {
    l.nextId >= 1
    && DistinctIds(l.refs)
    && IdSet(l.refs) == l.notes.Keys
    && (forall id | id in l.notes :: id < l.nextId && l.notes[id].id == id)
  }

  lemma NoNotesValid()
    ensures Valid(NoNotes)
  {
  }

  /** `footnote_count` / `endnote_count`. */
  function Count(l: Notes): nat
  {
    |l.notes|
  }

  /** `renumber_footnotes` / `renumber_endnotes`: the note map is renumbered, the reference list is not touched. */
  function Renumber(l: Notes, fmt: NumberFormat, start: nat): (r: Notes)
    requires Numberable(fmt, start, NumberedCount(l.notes.Keys, l.refs))
    ensures r.refs == l.refs && r.nextId == l.nextId && r.notes.Keys == l.notes.Keys
  {
    NumberedCountSorted(l.notes.Keys, l.refs);
    l.(notes := RenumberFrom(l.notes, SortByOffset(l.refs), start, fmt))
  }

  lemma RenumberKeepsValid(l: Notes, fmt: NumberFormat, start: nat)
    requires Valid(l) && Numberable(fmt, start, NumberedCount(l.notes.Keys, l.refs))
    ensures Valid(Renumber(l, fmt, start))
  {
    NumberedCountSorted(l.notes.Keys, l.refs);
    var r := Renumber(l, fmt, start);
    forall id | id in r.notes
      ensures id < r.nextId && r.notes[id].id == id
    {
      RenumberFromShape(l.notes, SortByOffset(l.refs), start, fmt, id);
    }
  }

  /**
   * After renumbering, the note of the `i`-th counted reference in offset
   * order (counting from 0) has start number `start + i` and the marker
   * that number formats to; all other fields of the note are as before.
   */
  lemma RenumberNumbersInOffsetOrder(l: Notes, fmt: NumberFormat, start: nat, i: nat)
    requires DistinctIds(l.refs) && Numberable(fmt, start, NumberedCount(l.notes.Keys, l.refs))
    requires i < |l.refs| && Counted(l.notes.Keys, SortByOffset(l.refs)[i])
    ensures var sorted := SortByOffset(l.refs);
      NumberedAs(Renumber(l, fmt, start).notes[sorted[i].id], l.notes[sorted[i].id],
                 start + NumberedCount(l.notes.Keys, sorted[..i]), fmt)
  {
    var sorted := SortByOffset(l.refs);
    NumberedCountSorted(l.notes.Keys, l.refs);
    SortByOffsetIds(l.refs);
    RenumberFromGives(l.notes, sorted, start, fmt, i, sorted[i].id, start + NumberedCount(l.notes.Keys, sorted[..i]));
  }

  /** Notes that only cross-references point at keep their number and marker. */
  lemma RenumberSkipsCrossReferences(l: Notes, fmt: NumberFormat, start: nat, id: nat)
    requires Numberable(fmt, start, NumberedCount(l.notes.Keys, l.refs))
    requires id in l.notes && forall x | x in l.refs && x.id == id :: x.isCrossReference
    ensures Renumber(l, fmt, start).notes[id] == l.notes[id]
  {
    NumberedCountSorted(l.notes.Keys, l.refs);
    var sorted := SortByOffset(l.refs);
    assert forall x | x in sorted :: x in multiset(sorted);
    RenumberFromSkips(l.notes, sorted, start, fmt, id);
  }

  /** `calculate_footnote_number`: the start number plus the non-cross references before the first one with this id. */
  function CalculateNumber(refs: seq<Reference>, id: nat, start: nat): nat
  {
    if |refs| == 0 || refs[0].id == id then start
    else CalculateNumber(refs[1..], id, start + (if refs[0].isCrossReference then 0 else 1))
  }

  /** For a fresh id every reference comes before it: the number is one past the counted references. */
  lemma {:induction false} CalculateNumberOfFreshId(keys: set<nat>, refs: seq<Reference>, id: nat, start: nat)
    requires id !in IdSet(refs) && IdSet(refs) <= keys
    ensures CalculateNumber(refs, id, start) == start + NumberedCount(keys, refs)
  {
    if |refs| > 0 {
      IdSetFront(refs);
      CalculateNumberOfFreshId(keys, refs[1..], id, start + (if refs[0].isCrossReference then 0 else 1));
    }
  }

  /** Everything `insert_footnote` / `insert_endnote` formats can be formatted. */
  predicate CanInsert(l: Notes, fmt: NumberFormat, start: nat)
  {
    Formattable(fmt, CalculateNumber(l.refs, l.nextId, start))
    && Numberable(fmt, start, NumberedCount(l.notes.Keys + {l.nextId}, l.refs) + 1)
  }

  /** The lists once the new note and its reference are in, before renumbering. */
  function Added(l: Notes, kind: Kind, fmt: NumberFormat, start: nat, placement: Option<Placement>,
                 content: seq<string>, position: Position): (r: Notes)
    requires Formattable(fmt, CalculateNumber(l.refs, l.nextId, start))
    ensures r.nextId == l.nextId + 1 && r.notes.Keys == l.notes.Keys + {l.nextId}
    ensures |r.refs| == |l.refs| + 1 && r.refs[..|l.refs|] == l.refs
  {
    var id := l.nextId;
    var marker := Format(fmt, CalculateNumber(l.refs, id, start));
    var note := NewNote(kind, id, marker, position, content).(numberFormat := fmt, startNumber := start);
    var placed := if placement.Some? then note.(placement := placement.value) else note;
    Notes(l.notes[id := placed], l.refs + [Reference(id, marker, position, false, None)], id + 1)
  }

  lemma AddedCount(l: Notes, kind: Kind, fmt: NumberFormat, start: nat, placement: Option<Placement>,
                   content: seq<string>, position: Position)
    requires CanInsert(l, fmt, start)
    ensures var added := Added(l, kind, fmt, start, placement, content, position);
      NumberedCount(added.notes.Keys, added.refs) == NumberedCount(l.notes.Keys + {l.nextId}, l.refs) + 1
  {
    var added := Added(l, kind, fmt, start, placement, content, position);
    var ref := added.refs[|l.refs|];
    assert added.refs == l.refs + [ref];
    assert NumberedCount(added.notes.Keys, [ref]) == 1;
    NumberedCountAppend(added.notes.Keys, l.refs, [ref]);
  }

  /**
   * `insert_footnote` / `insert_endnote`: take the counter as the id,
   * format the number the reference list gives it, append the reference,
   * store the note with the configured format and start number (and, for
   * footnotes, placement), then renumber.
   */
  function InsertNumbered(l: Notes, kind: Kind, fmt: NumberFormat, start: nat, placement: Option<Placement>,
                          content: seq<string>, position: Position): (r: (Notes, nat))
    requires CanInsert(l, fmt, start)
    ensures r.1 == l.nextId && r.0.nextId == l.nextId + 1
    ensures r.0.notes.Keys == l.notes.Keys + {l.nextId}
    ensures r.0.refs == l.refs + [Reference(l.nextId, Format(fmt, CalculateNumber(l.refs, l.nextId, start)), position, false, None)]
  {
    AddedCount(l, kind, fmt, start, placement, content, position);
    (Renumber(Added(l, kind, fmt, start, placement, content, position), fmt, start), l.nextId)
  }

  lemma {:induction false} AppendRefIds(refs: seq<Reference>, x: Reference)
    ensures IdSet(refs + [x]) == IdSet(refs) + {x.id}
    ensures DistinctIds(refs) && x.id !in IdSet(refs) ==> DistinctIds(refs + [x])
  {
    assert (refs + [x])[..|refs|] == refs;
  }

  /** Adding one note with a fresh id: counter and validity. */
  lemma AddKeepsValid(l: Notes, note: Note, ref: Reference)
    requires Valid(l) && note.id == l.nextId && ref.id == l.nextId
    ensures Valid(Notes(l.notes[l.nextId := note], l.refs + [ref], l.nextId + 1))
    ensures |l.notes[l.nextId := note]| == |l.notes| + 1
  {
    AppendRefIds(l.refs, ref);
  }

  /** Inserting returns the counter, bumps it, adds exactly one note, and keeps the lists valid. */
  lemma InsertNumberedGrows(l: Notes, kind: Kind, fmt: NumberFormat, start: nat, placement: Option<Placement>,
                            content: seq<string>, position: Position)
    requires Valid(l) && CanInsert(l, fmt, start)
    ensures var (r, id) := InsertNumbered(l, kind, fmt, start, placement, content, position);
      Valid(r) && id == l.nextId && id !in l.notes && Count(r) == Count(l) + 1
  {
    var added := Added(l, kind, fmt, start, placement, content, position);
    AddedValid(l, kind, fmt, start, placement, content, position);
    AddedCount(l, kind, fmt, start, placement, content, position);
    RenumberKeepsValid(added, fmt, start);
  }

  /** The note list before renumbering is valid and one note longer. */
  lemma AddedValid(l: Notes, kind: Kind, fmt: NumberFormat, start: nat, placement: Option<Placement>,
                   content: seq<string>, position: Position)
    requires Valid(l) && CanInsert(l, fmt, start)
    ensures var added := Added(l, kind, fmt, start, placement, content, position);
      Valid(added) && l.nextId !in l.notes && |added.notes| == |l.notes| + 1
  {
    var added := Added(l, kind, fmt, start, placement, content, position);
    AddKeepsValid(l, added.notes[l.nextId], added.refs[|l.refs|]);
    assert added.refs == l.refs + [added.refs[|l.refs|]];
  }

  /** The new note holds the given content and, for footnotes, the configured placement. */
  lemma InsertNumberedContent(l: Notes, kind: Kind, fmt: NumberFormat, start: nat, placement: Option<Placement>,
                              content: seq<string>, position: Position)
    requires CanInsert(l, fmt, start)
    ensures var (r, id) := InsertNumbered(l, kind, fmt, start, placement, content, position);
      id in r.notes && r.notes[id].content == content && r.notes[id].numberFormat == fmt
      && (placement.Some? ==> r.notes[id].placement == placement.value)
      && (placement.None? ==> r.notes[id].placement == NewNote(kind, id, "", position, content).placement)
  {
    var added := Added(l, kind, fmt, start, placement, content, position);
    AddedCount(l, kind, fmt, start, placement, content, position);
    NumberedCountSorted(added.notes.Keys, added.refs);
    RenumberFromShape(added.notes, SortByOffset(added.refs), start, fmt, l.nextId);
  }

  /** `insert_footnote_with_marker`: no number is formatted and nothing is renumbered. */
  function InsertWithMarker(l: Notes, kind: Kind, placement: Placement, content: seq<string>, position: Position,
                            marker: string): (r: (Notes, nat))
    ensures r.1 == l.nextId && r.0.nextId == l.nextId + 1
    ensures r.0.refs == l.refs + [Reference(l.nextId, marker, position, false, None)]
  {
    var id := l.nextId;
    var note := WithCustomMarker(kind, id, marker, position, content).(placement := placement);
    (Notes(l.notes[id := note], l.refs + [Reference(id, marker, position, false, None)], id + 1), id)
  }

  lemma InsertWithMarkerShows(l: Notes, kind: Kind, placement: Placement, content: seq<string>, position: Position,
                              marker: string)
    requires Valid(l)
    ensures var (r, id) := InsertWithMarker(l, kind, placement, content, position, marker);
      Valid(r) && Count(r) == Count(l) + 1 && id in r.notes && DisplayMarker(r.notes[id]) == marker
  {
    var id := l.nextId;
    AddKeepsValid(l, WithCustomMarker(kind, id, marker, position, content).(placement := placement),
                  Reference(id, marker, position, false, None));
  }

  /** The display marker a cross-reference quotes, if its target exists. */
  predicate CanCite(l: Notes, target: nat)
  {
    target in l.notes ==> CanDisplay(l.notes[target])
  }

  /**
   * `insert_footnote_cross_reference` / `insert_endnote_cross_reference`:
   * a note without content whose reference is a cross-reference; its
   * marker quotes the target's display marker, or reports an invalid
   * reference when the target does not exist.
   */
  function InsertCrossReference(l: Notes, kind: Kind, position: Position, target: nat): (r: (Notes, nat))
    requires CanCite(l, target)
    ensures r.1 == l.nextId && r.0.nextId == l.nextId + 1
  {
    var id := l.nextId;
    var marker :=
      if target in l.notes then (if kind == FootnoteKind then "See footnote " else "See endnote ") + DisplayMarker(l.notes[target])
      else "[Invalid Reference]";
    var ref := Reference(id, marker, position, true, Some(target));
    var note := NewNote(kind, id, marker, position, []).(reference := ref);
    (Notes(l.notes[id := note], l.refs + [ref], id + 1), id)
  }

  lemma CrossReferencePointsAtTarget(l: Notes, kind: Kind, position: Position, target: nat)
    requires Valid(l) && CanCite(l, target)
    ensures var (r, id) := InsertCrossReference(l, kind, position, target);
      Valid(r) && Count(r) == Count(l) + 1 && id in r.notes
      && r.notes[id].reference.isCrossReference && r.notes[id].reference.referencedId == Some(target)
      && r.notes[id].content == []
      && (target !in l.notes ==> r.notes[id].reference.marker == "[Invalid Reference]")
      && (target in l.notes && kind == FootnoteKind ==>
            r.notes[id].reference.marker == "See footnote " + DisplayMarker(l.notes[target]))
  {
    var (r, id) := InsertCrossReference(l, kind, position, target);
    AddKeepsValid(l, r.notes[id], r.refs[|l.refs|]);
    assert r.refs == l.refs + [r.refs[|l.refs|]];
  }

  /** `delete_footnote` / `delete_endnote`: drop the id from the references and the map; report whether the map had it. */
  function Delete(l: Notes, id: nat): (r: (Notes, bool))
    ensures r.1 <==> id in l.notes
    ensures id !in r.0.notes && r.0.notes.Keys == l.notes.Keys - {id}
    ensures forall k :: 0 <= k < |r.0.refs| ==> r.0.refs[k].id != id
  {
    var refs := WithoutId(l.refs, id);
    assert forall k :: 0 <= k < |refs| ==> refs[k].id != id by {
      forall k | 0 <= k < |refs| ensures refs[k].id != id {
        WithoutIdMembers(l.refs, id, refs[k]);
      }
    }
    (Notes(l.notes - {id}, refs, l.nextId), id in l.notes)
  }

  lemma DeleteKeepsValid(l: Notes, id: nat)
    requires Valid(l)
    ensures var (r, found) := Delete(l, id);
      Valid(r) && Count(r) == (if found then Count(l) - 1 else Count(l))
      && (forall x :: x in r.refs <==> x in l.refs && x.id != id)
  {
    WithoutIdIdSet(l.refs, id);
    WithoutIdDistinct(l.refs, id);
    forall x {
      WithoutIdMembers(l.refs, id, x);
    }
  }

  /** `update_footnote_content` / `update_endnote_content`. */
  function UpdateContent(l: Notes, id: nat, content: seq<string>): (r: (Notes, bool))
    ensures r.1 <==> id in l.notes
    ensures r.0.notes.Keys == l.notes.Keys && r.0.refs == l.refs
    ensures id in l.notes ==> r.0.notes[id] == l.notes[id].(content := content)
    ensures forall k | k in l.notes && k != id :: r.0.notes[k] == l.notes[k]
  {
    if id in l.notes then (l.(notes := l.notes[id := l.notes[id].(content := content)]), true)
    else (l, false)
  }

  /** The marker a new numbered note first gets is one past the counted references already there. */
  lemma InsertNumberedFirstMarker(l: Notes, kind: Kind, fmt: NumberFormat, start: nat, placement: Option<Placement>,
                                  content: seq<string>, position: Position)
    requires Valid(l) && CanInsert(l, fmt, start)
    ensures var r := InsertNumbered(l, kind, fmt, start, placement, content, position).0;
      var n := start + NumberedCount(l.notes.Keys, l.refs);
      Formattable(fmt, n) && r.refs[|l.refs|].marker == Format(fmt, n)
  {
    FreshIdNumber(l, start);
    InsertNumberedMarker(l, kind, fmt, start, placement, content, position);
  }

  /** The reference `InsertNumbered` appends carries the number computed for the fresh id. */
  lemma InsertNumberedMarker(l: Notes, kind: Kind, fmt: NumberFormat, start: nat, placement: Option<Placement>,
                             content: seq<string>, position: Position)
    requires CanInsert(l, fmt, start)
    ensures var refs := InsertNumbered(l, kind, fmt, start, placement, content, position).0.refs;
      |refs| > |l.refs| && refs[|l.refs|].marker == Format(fmt, CalculateNumber(l.refs, l.nextId, start))
  {
    var refs := InsertNumbered(l, kind, fmt, start, placement, content, position).0.refs;
    var ref := Reference(l.nextId, Format(fmt, CalculateNumber(l.refs, l.nextId, start)), position, false, None);
    assert refs == l.refs + [ref];
    assert refs[|l.refs|] == ref;
  }

  /** In a valid list the next id has no reference yet, so its number counts all numbered ones. */
  lemma FreshIdNumber(l: Notes, start: nat)
    requires Valid(l)
    ensures CalculateNumber(l.refs, l.nextId, start) == start + NumberedCount(l.notes.Keys, l.refs)
  {
    assert l.nextId !in l.notes.Keys;
    CalculateNumberOfFreshId(l.notes.Keys, l.refs, l.nextId, start);
  }

  // ---------------------------------------------------------------
  // The manager
  // ---------------------------------------------------------------

  /** The numbering part of `FootnoteConfig`. */
  datatype Config = Config(footnoteFormat: NumberFormat, endnoteFormat: NumberFormat,
                           footnotePlacement: Placement, endnotePlacement: Placement,
                           footnoteStart: nat, endnoteStart: nat)

  const DefaultConfig := Config(Arabic, RomanLower, PageBottom, DocumentEnd, 1, 1)

  /** `FootnoteManager`: footnotes and endnotes kept apart, each with its own references and counter. */
  datatype Manager = Manager(footnotes: Notes, endnotes: Notes, config: Config)

  /** `FootnoteManager::new` / `with_config`. */
  function NewManager(config: Config): (m: Manager)
    ensures Count(m.footnotes) == 0 && Count(m.endnotes) == 0
    ensures m.footnotes.nextId == 1 && m.endnotes.nextId == 1 && m.config == config
  {
    Manager(NoNotes, NoNotes, config)
  }

  function List(m: Manager, kind: Kind): Notes
  {
    if kind == FootnoteKind then m.footnotes else m.endnotes
  }

  function FormatOf(c: Config, kind: Kind): NumberFormat
  {
    if kind == FootnoteKind then c.footnoteFormat else c.endnoteFormat
  }

  function StartOf(c: Config, kind: Kind): nat
  {
    if kind == FootnoteKind then c.footnoteStart else c.endnoteStart
  }

  /** Replaces one kind's list; the other kind's list and the configuration stay. */
  function WithList(m: Manager, kind: Kind, l: Notes): (r: Manager)
    ensures List(r, kind) == l && r.config == m.config
    ensures forall other: Kind | other != kind :: List(r, other) == List(m, other)
  {
    if kind == FootnoteKind then m.(footnotes := l) else m.(endnotes := l)
  }

  predicate ManagerValid(m: Manager)
  {
    Valid(m.footnotes) && Valid(m.endnotes)
  }

  lemma NewManagerValid(config: Config)
    ensures ManagerValid(NewManager(config))
  {
    NoNotesValid();
  }

  /** `insert_footnote` / `insert_endnote` with the configured format, start and (footnotes only) placement. */
  function InsertNote(m: Manager, kind: Kind, content: seq<string>, position: Position): (r: (Manager, nat))
    requires CanInsert(List(m, kind), FormatOf(m.config, kind), StartOf(m.config, kind))
    ensures r.1 == List(m, kind).nextId && List(r.0, kind).nextId == r.1 + 1
    ensures forall other: Kind | other != kind :: List(r.0, other) == List(m, other)
  {
    var placement := if kind == FootnoteKind then Some(m.config.footnotePlacement) else None;
    var (l, id) := InsertNumbered(List(m, kind), kind, FormatOf(m.config, kind), StartOf(m.config, kind),
                                  placement, content, position);
    (WithList(m, kind, l), id)
  }

  lemma InsertNoteGrows(m: Manager, kind: Kind, content: seq<string>, position: Position)
    requires ManagerValid(m) && CanInsert(List(m, kind), FormatOf(m.config, kind), StartOf(m.config, kind))
    ensures var (r, id) := InsertNote(m, kind, content, position);
      ManagerValid(r) && Count(List(r, kind)) == Count(List(m, kind)) + 1 && id in List(r, kind).notes
  {
    var placement := if kind == FootnoteKind then Some(m.config.footnotePlacement) else None;
    InsertNumberedGrows(List(m, kind), kind, FormatOf(m.config, kind), StartOf(m.config, kind),
                        placement, content, position);
  }

  /** The first footnote of a fresh manager gets id 1 and marker "1". */
  lemma FirstFootnote(position: Position)
    ensures var (m, id) := InsertNote(NewManager(DefaultConfig), FootnoteKind, [], position);
      id == 1 && Count(m.footnotes) == 1 && m.footnotes.refs[0].marker == "1"
  {
    var (m, id) := InsertNote(NewManager(DefaultConfig), FootnoteKind, [], position);
    assert CalculateNumber([], 1, 1) == 1;
    assert m.footnotes.notes.Keys == {1};
    assert NatToString(1) == "1";
  }

  /** The first endnote of a fresh manager gets id 1 and marker "i". */
  lemma FirstEndnote(position: Position)
    ensures var (m, id) := InsertNote(NewManager(DefaultConfig), EndnoteKind, [], position);
      id == 1 && Count(m.endnotes) == 1 && m.endnotes.refs[0].marker == "i"
  {
    var (m, id) := InsertNote(NewManager(DefaultConfig), EndnoteKind, [], position);
    assert CalculateNumber([], 1, 1) == 1;
    assert m.endnotes.notes.Keys == {1};
    Numbering.RomanLowerExamples();
  }

  /** `delete_footnote` / `delete_endnote`. */
  function DeleteNote(m: Manager, kind: Kind, id: nat): (r: (Manager, bool))
    ensures r.1 <==> id in List(m, kind).notes
    ensures id !in List(r.0, kind).notes
    ensures forall other: Kind | other != kind :: List(r.0, other) == List(m, other)
  {
    var (l, found) := Delete(List(m, kind), id);
    (WithList(m, kind, l), found)
  }

  /** `clear_footnotes` / `clear_endnotes`: the kind's list starts over; the other is untouched. */
  function ClearNotes(m: Manager, kind: Kind): (r: Manager)
    ensures Count(List(r, kind)) == 0 && List(r, kind).refs == [] && List(r, kind).nextId == 1
    ensures forall other: Kind | other != kind :: List(r, other) == List(m, other)
  {
    WithList(m, kind, NoNotes)
  }

  /** `clear_all`. */
  function ClearAll(m: Manager): (r: Manager)
    ensures forall kind: Kind :: List(r, kind) == NoNotes
    ensures r.config == m.config
  {
    ClearNotes(ClearNotes(m, FootnoteKind), EndnoteKind)
  }

  lemma ClearKeepsValid(m: Manager, kind: Kind)
    requires ManagerValid(m)
    ensures ManagerValid(ClearNotes(m, kind)) && ManagerValid(ClearAll(m))
  {
    NoNotesValid();
  }

  /** `set_footnote_number_format` / `set_endnote_number_format`: store the format, then renumber that kind. */
  function SetFormat(m: Manager, kind: Kind, fmt: NumberFormat): (r: Manager)
    requires Numberable(fmt, StartOf(m.config, kind), NumberedCount(List(m, kind).notes.Keys, List(m, kind).refs))
    ensures FormatOf(r.config, kind) == fmt && StartOf(r.config, kind) == StartOf(m.config, kind)
    ensures List(r, kind).refs == List(m, kind).refs && List(r, kind).notes.Keys == List(m, kind).notes.Keys
    ensures forall other: Kind | other != kind :: List(r, other) == List(m, other) && FormatOf(r.config, other) == FormatOf(m.config, other)
  {
    var c := if kind == FootnoteKind then m.config.(footnoteFormat := fmt) else m.config.(endnoteFormat := fmt);
    WithList(m.(config := c), kind, Renumber(List(m, kind), fmt, StartOf(m.config, kind)))
  }

  /** `set_footnote_start_number` / `set_endnote_start_number`: store the start, then renumber that kind. */
  function SetStart(m: Manager, kind: Kind, start: nat): (r: Manager)
    requires Numberable(FormatOf(m.config, kind), start, NumberedCount(List(m, kind).notes.Keys, List(m, kind).refs))
    ensures StartOf(r.config, kind) == start && FormatOf(r.config, kind) == FormatOf(m.config, kind)
    ensures List(r, kind).refs == List(m, kind).refs && List(r, kind).notes.Keys == List(m, kind).notes.Keys
    ensures forall other: Kind | other != kind :: List(r, other) == List(m, other) && StartOf(r.config, other) == StartOf(m.config, other)
  {
    var c := if kind == FootnoteKind then m.config.(footnoteStart := start) else m.config.(endnoteStart := start);
    WithList(m.(config := c), kind, Renumber(List(m, kind), FormatOf(m.config, kind), start))
  }

  /** After `SetStart`, the first counted note in offset order carries the new start number. */
  lemma SetStartNumbersFirst(m: Manager, kind: Kind, start: nat)
    requires Valid(List(m, kind))
    requires Numberable(FormatOf(m.config, kind), start, NumberedCount(List(m, kind).notes.Keys, List(m, kind).refs))
    requires |List(m, kind).refs| > 0 && Counted(List(m, kind).notes.Keys, SortByOffset(List(m, kind).refs)[0])
    ensures var id := SortByOffset(List(m, kind).refs)[0].id;
      List(SetStart(m, kind, start), kind).notes[id].startNumber == start
  {
    RenumberNumbersInOffsetOrder(List(m, kind), FormatOf(m.config, kind), start, 0);
  }

  // ---------------------------------------------------------------
  // XML escaping for the note export
  // ---------------------------------------------------------------

  /** `escape_xml`: one pass over the text, pushing each character or its entity. */
  method EscapeXml(text: string) returns (r: string)
    ensures r == EscapeXmlEach(text)
    ensures forall k | 0 <= k < |r| :: r[k] !in "<>\"'"
  {
    r := "";
    var i := 0;
    while i < |text|
      invariant 0 <= i <= |text|
      invariant r == EscapeXmlEach(text[..i])
    {
      EscapeXmlEachAppend(text[..i], [text[i]]);
      assert text[..i + 1] == text[..i] + [text[i]];
      r := r + EscapeXmlChar(text[i]);
      i := i + 1;
    }
    assert text[..i] == text;
    EscapeXmlEachNoMarkup(text);
  }
}
