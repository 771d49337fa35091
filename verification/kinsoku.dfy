// Kinsoku shori: the CJK rule that certain punctuation may not open a line
// and certain brackets may not close one.  The model covers the character
// classes, the adjustments found for a broken paragraph, the shrink factor
// and the extraction of each line's text.  Offsets are byte offsets of the
// UTF-8 text; widths are reals (the Rust code uses f64).

module Kinsoku {
  import opened Wrappers
  import opened TextUtil
  import LineLayout

  type Line = LineLayout.Line

  /** Characters that may not start a line: closing brackets, stops,
      commas, and the plain ASCII double and single quotes. */
  const NoStartChars: set<char> := {
    '\U{FF0C}', '\U{3002}', '\U{FF0E}', '\U{3001}', '\U{FF1A}', '\U{FF1B}', '\U{FF1F}', '\U{FF01}',
    '\U{FF09}', '\U{FF3D}', '\U{FF5D}', '\U{3009}', '\U{300D}', '\U{300F}', '\U{3011}', '\U{3019}',
    '\U{3017}', '\U{301F}', '"', '\'', '\U{00BB}', '\U{203A}'
  }

  /** Characters that may not end a line: opening brackets. */
  const NoEndChars: set<char> := { '\U{FF08}', '\U{3014}', '\U{3010}' }

  predicate IsNoStartChar(c: char)
  {
    c in NoStartChars
  }

  predicate IsNoEndChar(c: char)
  {
    c in NoEndChars
  }

  /** No character is forbidden at both ends of a line. */
  lemma TablesDisjoint(c: char)
    ensures !(IsNoStartChar(c) && IsNoEndChar(c))
  {
    assert NoStartChars * NoEndChars == {};
  }

  lemma NoStartExamples()
    ensures IsNoStartChar('\U{FF0C}') && IsNoStartChar('\U{3002}') && IsNoStartChar('\U{FF09}')
    ensures !IsNoStartChar('\U{4E2D}') && !IsNoStartChar('A') && !IsNoStartChar('(') && !IsNoStartChar('1')
    ensures IsNoEndChar('\U{FF08}') && IsNoEndChar('\U{3014}') && IsNoEndChar('\U{3010}')
    ensures !IsNoEndChar('\U{FF0C}') && !IsNoEndChar('\U{3002}') && !IsNoEndChar('\U{4E2D}') && !IsNoEndChar('A')
  {
  }

  predicate InRange(c: char, lo: int, hi: int)
  {
    lo <= c as int <= hi
  }

  /** Ideographs, kana, hangul, full-width forms and CJK punctuation, plus a
      few listed characters outside those blocks. */
  predicate IsCjkChar(c: char)
  {
    InRange(c, 0x4E00, 0x9FFF) || InRange(c, 0x3400, 0x4DBF) || InRange(c, 0x20000, 0x2A6DF)
    || InRange(c, 0x3040, 0x309F) || InRange(c, 0x30A0, 0x30FF)
    || InRange(c, 0xAC00, 0xD7AF) || InRange(c, 0x1100, 0x11FF)
    || InRange(c, 0xFF00, 0xFFEF) || InRange(c, 0x3000, 0x303F)
    || c in {'"', '\'', '\U{2026}', '\U{2014}'}
  }

  const ShrinkableChars: set<char> := {
    '\U{FF0C}', '\U{3002}', '\U{3001}', '\U{FF1A}', '\U{FF1B}', '\U{FF1F}', '\U{FF01}',
    '\U{FF08}', '\U{FF09}', '\U{3010}', '\U{3011}'
  }

  predicate IsShrinkablePunctuation(c: char)
  {
    c in ShrinkableChars
  }

  /** Every shrinkable punctuation mark is itself a CJK character. */
  lemma ShrinkableIsCjk(c: char)
    requires IsShrinkablePunctuation(c)
    ensures IsCjkChar(c)
  {
  }

  lemma CjkExamples()
    ensures IsCjkChar('\U{4E2D}') && IsCjkChar('\U{6587}') && IsCjkChar('\U{FF0C}') && IsCjkChar('\U{3042}') && IsCjkChar('\U{30A2}')
    ensures !IsCjkChar('A') && !IsCjkChar('1') && !IsCjkChar('@')
  {
  }

  /** Width of one character relative to a default width: full for CJK and
      non-ASCII characters, half for the remaining ASCII ones. */
  function CharWidth(c: char, defaultWidth: real): (w: real)
    ensures c as int >= 0x80 ==> w == defaultWidth
  {
    if IsCjkChar(c) || IsShrinkablePunctuation(c) then defaultWidth
    else if c as int < 0x80 then defaultWidth * 0.5
    else defaultWidth
  }

  /** A character is half width exactly when it is ASCII and not one of the
      two quotes the CJK list names. */
  lemma CharWidthHalfIff(c: char, d: real)
    requires d != 0.0
    ensures CharWidth(c, d) == d * 0.5 <==> (c as int < 0x80 && c != '"' && c != '\'')
  {
    if c as int < 0x80 {
      assert !IsShrinkablePunctuation(c);
    }
  }

  lemma CharWidthExamples()
    ensures CharWidth('\U{4E2D}', 1.0) == 1.0 && CharWidth('\U{FF0C}', 1.0) == 1.0 && CharWidth('A', 1.0) == 0.5
  {
  }

  // ---------------------------------------------------------------------
  // Adjustments

  datatype AdjustmentType = Shrink | Hanging | Wrap

  datatype Adjustment = Adjustment(
    lineIndex: nat,
    adjustmentType: AdjustmentType,
    startOffset: nat,
    endOffset: nat,
    extraSpaceNeeded: real,
    charsToMove: nat,
    problemChar: char)

  /** The adjustment for a line whose text opens with a forbidden character:
      hang it in the margin when that leaves room, otherwise wrap it. */
  function StartAdjustment(i: nat, l: Line, text: string, lineWidth: real, maxWidth: real): (r: seq<Adjustment>)
    requires |text| > 0
    ensures |r| <= 1
    ensures |r| == 1 <==> IsNoStartChar(text[0])
    ensures |r| == 1 ==> (r[0].lineIndex == i && r[0].problemChar == text[0] && r[0].charsToMove == 1
              && r[0].startOffset == l.start && r[0].endOffset == l.start + CharUtf8Len(text[0])
              && (r[0].adjustmentType == Hanging <==> maxWidth - lineWidth + CharWidth(text[0], 1.0) > 0.0)
              && (r[0].adjustmentType == Hanging || r[0].adjustmentType == Wrap))
  {
    var c := text[0];
    if !IsNoStartChar(c) then []
    else
      var w := CharWidth(c, 1.0);
      if maxWidth - lineWidth + w > 0.0 then
        [Adjustment(i, Hanging, l.start, l.start + CharUtf8Len(c), w, 1, c)]
      else
        [Adjustment(i, Wrap, l.start, l.start + CharUtf8Len(c), 0.0, 1, c)]
  }

  /** A line whose closing character is forbidden there needs its end byte
      range to be at least that character long (the Rust code subtracts). */
  predicate EndFits(l: Line, text: string)
  {
    |text| > 0 && IsNoEndChar(text[|text| - 1]) ==> CharUtf8Len(text[|text| - 1]) <= l.end
  }

  /** The adjustment for a line whose text closes with a forbidden
      character: squeeze the line when it overflows by at least that
      character, otherwise wrap the character. */
  function EndAdjustment(i: nat, l: Line, text: string, lineWidth: real, maxWidth: real): (r: seq<Adjustment>)
    requires |text| > 0 && EndFits(l, text)
    ensures |r| <= 1
    ensures |r| == 1 <==> IsNoEndChar(text[|text| - 1])
    ensures |r| == 1 ==> (r[0].lineIndex == i && r[0].problemChar == text[|text| - 1]
              && r[0].endOffset == l.end && r[0].startOffset + CharUtf8Len(text[|text| - 1]) == l.end
              && (r[0].adjustmentType == Shrink <==>
                    (lineWidth - maxWidth > 0.0 && lineWidth - maxWidth >= CharWidth(text[|text| - 1], 1.0)))
              && (r[0].adjustmentType == Shrink || r[0].adjustmentType == Wrap)
              && (r[0].charsToMove == 0 <==> r[0].adjustmentType == Shrink))
  {
    var c := text[|text| - 1];
    if !IsNoEndChar(c) then []
    else
      var w := CharWidth(c, 1.0);
      var overflow := lineWidth - maxWidth;
      if overflow > 0.0 && overflow >= w then
        [Adjustment(i, Shrink, l.end - CharUtf8Len(c), l.end, w, 0, c)]
      else
        [Adjustment(i, Wrap, l.end - CharUtf8Len(c), l.end, 0.0, 1, c)]
  }

  /** A forbidden pair at k: a no-end character followed by a no-start one. */
  predicate PairAt(text: string, k: nat)
  {
    k + 1 < |text| && IsNoEndChar(text[k]) && IsNoStartChar(text[k + 1])
  }

  /** The first forbidden pair at or after k. */
  function FirstPair(text: string, k: nat): (r: Option<nat>)
    ensures r.Some? ==> k <= r.value && PairAt(text, r.value)
    ensures r.Some? ==> forall j :: k <= j < r.value ==> !PairAt(text, j)
    ensures r.None? ==> forall j :: k <= j ==> !PairAt(text, j)
    decreases |text| - k
  {
    if k + 1 >= |text| then None
    else if PairAt(text, k) then Some(k)
    else FirstPair(text, k + 1)
  }

  /** The adjustment for the first forbidden pair inside the line, if any.
      Its byte range is that of the second character of the pair. */
  function PairAdjustment(i: nat, l: Line, text: string, lineWidth: real, maxWidth: real): (r: seq<Adjustment>)
    ensures |r| <= 1
    ensures |r| == 1 <==> exists k :: PairAt(text, k)
    ensures |r| == 1 ==> exists k :: (FirstPair(text, 0) == Some(k) && PairAt(text, k)
              && r[0].lineIndex == i && r[0].problemChar == text[k]
              && r[0].startOffset == l.start + Utf8Len(text[..k + 1])
              && r[0].endOffset == l.start + Utf8Len(text[..k + 2])
              && (r[0].adjustmentType == Shrink <==> lineWidth - maxWidth > 0.0)
              && (r[0].adjustmentType == Shrink || r[0].adjustmentType == Wrap))
  {
    match FirstPair(text, 0)
    case None => []
    case Some(k) =>
      var a := text[k];
      var b := text[k + 1];
      var startByte := l.start + Utf8Len(text[..k + 1]);
      var endByte := l.start + Utf8Len(text[..k + 2]);
      if lineWidth - maxWidth > 0.0 then
        [Adjustment(i, Shrink, startByte, endByte, CharWidth(a, 1.0) + CharWidth(b, 1.0), 0, a)]
      else
        [Adjustment(i, Wrap, startByte, endByte, 0.0, 2, a)]
  }

  /** The width of line i: its measured width, or the maximum when none is given. */
  function LineWidthAt(widths: seq<real>, i: nat, maxWidth: real): real
  {
    if i < |widths| then widths[i] else maxWidth
  }

  /** All adjustments of line i, in the order start, end, pair. */
  function LineAdjustments(i: nat, l: Line, text: string, widths: seq<real>, maxWidth: real): (r: seq<Adjustment>)
    requires EndFits(l, text)
    ensures l.IsEmpty() || |text| == 0 ==> r == []
    ensures |r| <= 3
    ensures forall a :: a in r ==> a.lineIndex == i
  {
    if l.IsEmpty() || |text| == 0 then []
    else
      var w := LineWidthAt(widths, i, maxWidth);
      StartAdjustment(i, l, text, w, maxWidth) + EndAdjustment(i, l, text, w, maxWidth)
        + PairAdjustment(i, l, text, w, maxWidth)
  }

  predicate AllEndFit(lines: seq<Line>, texts: seq<string>)
  {
    forall i :: 0 <= i < |lines| && i < |texts| ==> EndFits(lines[i], texts[i])
  }

  function MinLen(a: nat, b: nat): nat
  {
    if a <= b then a else b
  }

  /** Every adjustment of group j is about line j. */
  predicate Grouped(groups: seq<seq<Adjustment>>)
  {
    forall j, a :: 0 <= j < |groups| && a in groups[j] ==> a.lineIndex == j
  }

  /** The adjustments of each line, lines and texts taken pairwise. */
  function LineGroups(lines: seq<Line>, texts: seq<string>, widths: seq<real>, maxWidth: real): (r: seq<seq<Adjustment>>)
    requires AllEndFit(lines, texts)
    ensures |r| == MinLen(|lines|, |texts|) && Grouped(r)
    ensures forall j :: 0 <= j < |r| ==> r[j] == LineAdjustments(j, lines[j], texts[j], widths, maxWidth)
  {
    seq(MinLen(|lines|, |texts|), j requires 0 <= j < MinLen(|lines|, |texts|) =>
      LineAdjustments(j, lines[j], texts[j], widths, maxWidth))
  }

  /** The groups from index i on, one after the other. */
  function Flatten(groups: seq<seq<Adjustment>>, i: nat): (r: seq<Adjustment>)
    requires i <= |groups|
    decreases |groups| - i
  {
    if i == |groups| then [] else groups[i] + Flatten(groups, i + 1)
  }

  /** Everything in the flattened groups comes from the group of its own line. */
  lemma {:induction false} FlattenMember(groups: seq<seq<Adjustment>>, i: nat, a: Adjustment)
    requires Grouped(groups) && i <= |groups|
    requires a in Flatten(groups, i)
    ensures i <= a.lineIndex < |groups| && a in groups[a.lineIndex]
    decreases |groups| - i
  {
    if a !in groups[i] {
      FlattenMember(groups, i + 1, a);
    }
  }

  /** The kinsoku pass over a broken paragraph: every line is checked for a
      forbidden first character, a forbidden last character and a forbidden
      pair inside it. */
  function ProcessForKinsoku(lines: seq<Line>, texts: seq<string>, widths: seq<real>, maxWidth: real): (r: seq<Adjustment>)
    requires AllEndFit(lines, texts)
    ensures forall a :: a in r ==> (a.lineIndex < |lines| && a.lineIndex < |texts|
              && !lines[a.lineIndex].IsEmpty() && |texts[a.lineIndex]| > 0)
  {
    var groups := LineGroups(lines, texts, widths, maxWidth);
    var r := Flatten(groups, 0);
    assert forall a :: a in r ==> (a.lineIndex < |lines| && a.lineIndex < |texts|
              && !lines[a.lineIndex].IsEmpty() && |texts[a.lineIndex]| > 0) by {
      forall a | a in r
        ensures a.lineIndex < |lines| && a.lineIndex < |texts|
        ensures !lines[a.lineIndex].IsEmpty() && |texts[a.lineIndex]| > 0
      {
        FlattenMember(groups, 0, a);
        var j := a.lineIndex;
        assert a in LineAdjustments(j, lines[j], texts[j], widths, maxWidth);
      }
    }
    r
  }

  /** The adjustments whose line index is k, in order. */
  function ForLine(adjs: seq<Adjustment>, k: nat): (r: seq<Adjustment>)
    ensures forall a :: a in r ==> a in adjs && a.lineIndex == k
  {
    if |adjs| == 0 then []
    else (if adjs[0].lineIndex == k then [adjs[0]] else []) + ForLine(adjs[1..], k)
  }

  lemma {:induction false} ForLineAppend(a: seq<Adjustment>, b: seq<Adjustment>, k: nat)
    ensures ForLine(a + b, k) == ForLine(a, k) + ForLine(b, k)
  {
    if |a| > 0 {
      assert (a + b)[1..] == a[1..] + b;
      ForLineAppend(a[1..], b, k);
    } else {
      assert a + b == b;
    }
  }

  lemma {:induction false} ForLineNone(a: seq<Adjustment>, k: nat)
    requires forall x :: x in a ==> x.lineIndex != k
    ensures ForLine(a, k) == []
  {
    if |a| > 0 {
      assert a[0] in a;
      assert forall x :: x in a[1..] ==> x in a;
      ForLineNone(a[1..], k);
    }
  }

  lemma {:induction false} ForLineAll(a: seq<Adjustment>, k: nat)
    requires forall x :: x in a ==> x.lineIndex == k
    ensures ForLine(a, k) == a
  {
    if |a| > 0 {
      assert a[0] in a;
      assert forall x :: x in a[1..] ==> x in a;
      ForLineAll(a[1..], k);
      assert a == [a[0]] + a[1..];
    }
  }

  lemma {:induction false} FlattenPerLine(groups: seq<seq<Adjustment>>, i: nat, k: nat)
    requires Grouped(groups) && i <= |groups|
    ensures ForLine(Flatten(groups, i), k) == if i <= k < |groups| then groups[k] else []
    decreases |groups| - i
  {
    if i == |groups| {
      assert ForLine([], k) == [];
    } else {
      var rest := Flatten(groups, i + 1);
      ForLineAppend(groups[i], rest, k);
      FlattenPerLine(groups, i + 1, k);
      if k == i {
        ForLineAll(groups[i], k);
        forall a | a in rest
          ensures a.lineIndex != k
        {
          FlattenMember(groups, i + 1, a);
        }
        ForLineNone(rest, k);
      } else {
        ForLineNone(groups[i], k);
      }
    }
  }

  /** The result, read line by line, is exactly each line's own adjustments:
      nothing is lost, duplicated or attributed to another line. */
  lemma ProcessPerLine(lines: seq<Line>, texts: seq<string>, widths: seq<real>, maxWidth: real, k: nat)
    requires AllEndFit(lines, texts)
    ensures ForLine(ProcessForKinsoku(lines, texts, widths, maxWidth), k) ==
              if k < |lines| && k < |texts| then LineAdjustments(k, lines[k], texts[k], widths, maxWidth) else []
  {
    FlattenPerLine(LineGroups(lines, texts, widths, maxWidth), 0, k);
  }

  /** Line indices never decrease along adjs. */
  predicate Ordered(adjs: seq<Adjustment>)
  {
    forall p, q :: 0 <= p < q < |adjs| ==> adjs[p].lineIndex <= adjs[q].lineIndex
  }

  lemma {:induction false} FlattenOrdered(groups: seq<seq<Adjustment>>, i: nat)
    requires Grouped(groups) && i <= |groups|
    ensures Ordered(Flatten(groups, i))
    decreases |groups| - i
  {
    if i < |groups| {
      FlattenOrdered(groups, i + 1);
      var here := groups[i];
      var rest := Flatten(groups, i + 1);
      var r := here + rest;
      forall p, q | 0 <= p < q < |r|
        ensures r[p].lineIndex <= r[q].lineIndex
      {
        if q < |here| {
          assert r[p] == here[p] && r[q] == here[q];
          assert here[p] in groups[i] && here[q] in groups[i];
        } else if p < |here| {
          assert r[p] == here[p] && here[p] in groups[i];
          var x := rest[q - |here|];
          assert r[q] == x && x in rest;
          FlattenMember(groups, i + 1, x);
        } else {
          var x, y := p - |here|, q - |here|;
          assert r[p] == rest[x] && r[q] == rest[y];
          assert rest[x].lineIndex <= rest[y].lineIndex;
        }
      }
      assert Flatten(groups, i) == r;
    }
  }

  /** The adjustments come out in line order. */
  lemma ProcessOrdered(lines: seq<Line>, texts: seq<string>, widths: seq<real>, maxWidth: real)
    requires AllEndFit(lines, texts)
    ensures Ordered(ProcessForKinsoku(lines, texts, widths, maxWidth))
  {
    FlattenOrdered(LineGroups(lines, texts, widths, maxWidth), 0);
    assert ProcessForKinsoku(lines, texts, widths, maxWidth) == Flatten(LineGroups(lines, texts, widths, maxWidth), 0);
  }

  /** The two examples of the Rust unit tests: a line opening with a full-width
      comma, and a line closing with a full-width opening bracket. */
  lemma StartViolationExample()
    ensures var lines := [LineLayout.Line(0, 6, 20.0, LineLayout.SoftBreak), LineLayout.Line(6, 9, 10.0, LineLayout.SoftBreak)];
            var texts := ["\U{4F60}\U{597D}", "\U{FF0C}"];
            AllEndFit(lines, texts) &&
            ProcessForKinsoku(lines, texts, [10.0, 10.0], 10.0) == [Adjustment(1, Hanging, 6, 9, 1.0, 1, '\U{FF0C}')]
  {
    var lines := [LineLayout.Line(0, 6, 20.0, LineLayout.SoftBreak), LineLayout.Line(6, 9, 10.0, LineLayout.SoftBreak)];
    var texts := ["\U{4F60}\U{597D}", "\U{FF0C}"];
    assert FirstPair(texts[0], 0) == None;
    assert FirstPair(texts[1], 0) == None;
    assert LineAdjustments(0, lines[0], texts[0], [10.0, 10.0], 10.0) == [];
    assert LineAdjustments(1, lines[1], texts[1], [10.0, 10.0], 10.0) == [Adjustment(1, Hanging, 6, 9, 1.0, 1, '\U{FF0C}')];
  }

  lemma EndViolationExample()
    ensures var lines := [LineLayout.Line(0, 9, 30.0, LineLayout.SoftBreak)];
            var texts := ["\U{6D4B}\U{8BD5}\U{FF08}"];
            AllEndFit(lines, texts) &&
            ProcessForKinsoku(lines, texts, [30.0], 25.0) == [Adjustment(0, Shrink, 6, 9, 1.0, 0, '\U{FF08}')]
  {
    var lines := [LineLayout.Line(0, 9, 30.0, LineLayout.SoftBreak)];
    var texts := ["\U{6D4B}\U{8BD5}\U{FF08}"];
    assert !PairAt(texts[0], 0) && !PairAt(texts[0], 1);
    assert FirstPair(texts[0], 0) == None;
    assert LineAdjustments(0, lines[0], texts[0], [30.0], 25.0) == [Adjustment(0, Shrink, 6, 9, 1.0, 0, '\U{FF08}')];
  }

  // ---------------------------------------------------------------------
  // Shrink factor and line texts

  /** The factor by which character spacing is squeezed to make room:
      never below 0.8 (at most 20 % compression), 1 when nothing is available. */
  function ShrinkFactor(spaceNeeded: real, availableSpace: real): (f: real)
    ensures availableSpace <= 0.0 ==> f == 1.0
    ensures availableSpace > 0.0 ==> f == Max0(1.0 - MinCap(spaceNeeded / availableSpace))
  {
    if availableSpace <= 0.0 then 1.0
    else
      var ratio := spaceNeeded / availableSpace;
      var capped := if ratio <= 0.2 then ratio else 0.2;
      var f := 1.0 - capped;
      if f >= 0.0 then f else 0.0
  }

  function MinCap(ratio: real): real
  {
    if ratio <= 0.2 then ratio else 0.2
  }

  function Max0(x: real): real
  {
    if x >= 0.0 then x else 0.0
  }

  lemma MulSign(x: real, y: real)
    requires y > 0.0
    ensures x >= 0.0 <==> x * y >= 0.0
    ensures x == 0.0 <==> x * y == 0.0
  {
    if x >= 0.0 {
      assert x * y >= 0.0;
    } else {
      assert x * y < 0.0;
    }
  }

  /** For a non-negative need the factor lies in [0.8, 1]: it is 0.8 once the
      need reaches a fifth of the available space, and 1 only for no need. */
  lemma ShrinkFactorBounds(need: real, avail: real)
    requires avail > 0.0 && need >= 0.0
    ensures 0.8 <= ShrinkFactor(need, avail) <= 1.0
    ensures ShrinkFactor(need, avail) == 0.8 <==> need >= 0.2 * avail
    ensures ShrinkFactor(need, avail) == 1.0 <==> need == 0.0
  {
    var r := need / avail;
    assert r * avail == need;
    MulSign(r, avail);
    MulSign(r - 0.2, avail);
    assert (r - 0.2) * avail == need - 0.2 * avail;
  }

  /** Needing more space never gives a larger factor. */
  lemma ShrinkFactorMonotone(n1: real, n2: real, avail: real)
    requires n1 <= n2
    ensures ShrinkFactor(n2, avail) <= ShrinkFactor(n1, avail)
  {
    if avail > 0.0 {
      MulSign(n2 / avail - n1 / avail, avail);
      assert (n2 / avail - n1 / avail) * avail == n2 - n1;
    }
  }

  lemma ShrinkFactorExamples()
    ensures ShrinkFactor(0.0, 100.0) == 1.0
    ensures 0.8 < ShrinkFactor(5.0, 100.0) < 1.0
    ensures ShrinkFactor(20.0, 100.0) == 0.8 && ShrinkFactor(30.0, 100.0) == 0.8
  {
  }

  /** Number of characters of s whose UTF-8 encoding takes exactly b bytes;
      None when b falls inside a character or past the end. */
  function CharsForBytes(s: string, b: nat): (r: Option<nat>)
    ensures r.Some? ==> r.value <= |s| && Utf8Len(s[..r.value]) == b
  {
    if b == 0 then
      assert s[..0] == [];
      Some(0)
    else if |s| == 0 then None
    else if CharUtf8Len(s[0]) > b then None
    else match CharsForBytes(s[1..], b - CharUtf8Len(s[0]))
      case None => None
      case Some(k) =>
        assert s[..k + 1] == [s[0]] + s[1..][..k];
        assert s[..k + 1][1..] == s[1..][..k];
        Some(k + 1)
  }

  /** A byte range that falls on character boundaries of text. */
  predicate OnBoundaries(text: string, l: Line)
  {
    l.start <= l.end && CharsForBytes(text, l.start).Some? && CharsForBytes(text, l.end).Some?
  }

  /** The text of one line: empty for an empty line, else its byte range. */
  function LineText(l: Line, text: string): (r: string)
    requires l.IsEmpty() || OnBoundaries(text, l)
    ensures Utf8Len(r) == l.end - l.start
    ensures !l.IsEmpty() ==> text == text[..CharsForBytes(text, l.start).value] + r + text[CharsForBytes(text, l.end).value..]
  {
    if l.IsEmpty() then ""
    else
      var ks := CharsForBytes(text, l.start).value;
      var ke := CharsForBytes(text, l.end).value;
      Utf8LenMonotone(text, ks, ke);
      Utf8LenSplit(text[..ke], ks);
      assert text[..ke][..ks] == text[..ks];
      assert text[..ke][ks..] == text[ks..ke];
      assert text == text[..ks] + text[ks..ke] + text[ke..];
      text[ks..ke]
  }

  lemma {:induction false} Utf8LenSplit(s: string, k: nat)
    requires k <= |s|
    ensures Utf8Len(s) == Utf8Len(s[..k]) + Utf8Len(s[k..])
  {
    if k > 0 {
      Utf8LenSplit(s[1..], k - 1);
      assert s[1..][..k - 1] == s[..k][1..];
      assert s[1..][k - 1..] == s[k..];
    } else {
      assert s[..0] == [] && s[0..] == s;
    }
  }

  lemma Utf8LenPrefixGrows(s: string, b: nat, a: nat)
    requires b < a <= |s|
    ensures Utf8Len(s[..b]) < Utf8Len(s[..a])
  {
    Utf8LenSplit(s[..a], b);
    assert s[..a][..b] == s[..b];
    assert |s[..a][b..]| == a - b;
  }

  /** Byte offsets grow with character counts, so a start before an end
      on boundaries is a start before it in characters too. */
  lemma Utf8LenMonotone(s: string, a: nat, b: nat)
    requires a <= |s| && b <= |s| && Utf8Len(s[..a]) <= Utf8Len(s[..b])
    requires a != b ==> Utf8Len(s[..a]) != Utf8Len(s[..b])
    ensures a <= b
  {
    if b < a {
      Utf8LenPrefixGrows(s, b, a);
    }
  }

  /** One text per line, in order. */
  function ExtractLineTexts(lines: seq<Line>, text: string): (r: seq<string>)
    requires forall i :: 0 <= i < |lines| ==> lines[i].IsEmpty() || OnBoundaries(text, lines[i])
    ensures |r| == |lines|
    ensures forall i :: 0 <= i < |lines| ==> r[i] == LineText(lines[i], text)
  {
    seq(|lines|, i requires 0 <= i < |lines| => LineText(lines[i], text))
  }

  /** A line's text has exactly as many bytes as its range, and an empty
      line's text is empty. */
  lemma ExtractLineTextsBytes(lines: seq<Line>, text: string, i: nat)
    requires forall i :: 0 <= i < |lines| ==> lines[i].IsEmpty() || OnBoundaries(text, lines[i])
    requires i < |lines|
    ensures Utf8Len(ExtractLineTexts(lines, text)[i]) == lines[i].end - lines[i].start
    ensures lines[i].IsEmpty() <==> ExtractLineTexts(lines, text)[i] == ""
  {
    var t := ExtractLineTexts(lines, text)[i];
    if t == "" {
      assert Utf8Len(t) == 0;
    }
  }
}
