/**
 * Loading a parsed Word document into the piece table
 * (`ooxml/converter.rs`): the non-empty runs of every paragraph become
 * pieces over one combined buffer, with a one-byte newline piece between
 * paragraphs, and each run's formatting becomes piece attributes.
 *
 * The piece table's attribute-carrying constructors that the converter
 * calls are not part of this model's piece table; a converted piece is
 * modelled here with the fields the converter passes.  Offsets and lengths
 * are UTF-8 byte counts.
 */
module OoxmlConverter {
  import opened Wrappers
  import opened TextUtil
  import opened OoxmlTypes

  datatype TextAttributes = TextAttributes(
    bold: Option<bool>,
    italic: Option<bool>,
    underline: Option<bool>,
    fontSize: Option<nat>,
    fontFamily: Option<string>,
    foreground: Option<string>,
    background: Option<string>)

  function DefaultAttributes(): TextAttributes
  {
    TextAttributes(None, None, None, None, None, None, None)
  }

  /** A piece over the combined buffer: byte start and length, character
      count, and the attributes of the run it came from (none for a
      paragraph break). */
  datatype ConvertedPiece = ConvertedPiece(start: nat, length: nat, charLength: nat, attributes: Option<TextAttributes>)

  // ---------------------------------------------------------------------
  // Run properties
  // ---------------------------------------------------------------------

  /** A colour with a leading '#' added when it has none. */
  function WithHash(c: string): (r: string)
    ensures StartsWith(r, "#")
    ensures r == c || r == "#" + c
  {
    if StartsWith(c, "#") then c else "#" + c
  }

  /** Adding the '#' twice is adding it once, and a colour that has one is
      left alone. */
  lemma WithHashIdempotent(c: string)
    ensures WithHash(WithHash(c)) == WithHash(c)
    ensures StartsWith(c, "#") <==> WithHash(c) == c
  {
  }

  function MapWithHash(c: Option<string>): Option<string>
  {
    match c
    case None => None
    case Some(v) => Some(WithHash(v))
  }

  /** `convert_run_properties`: bold and italic copied; underline set only
      for a value other than "none"; a positive half-point size halved and
      truncated to `u16`; font name copied; colours given a '#'. */
  function ConvertRunProperties(props: RunProperties): (a: TextAttributes)
    ensures a.bold == props.bold && a.italic == props.italic && a.fontFamily == props.fontName
    ensures a.underline.Some? <==> props.underline.Some? && props.underline.value != "none"
    ensures a.underline.Some? ==> a.underline.value
    ensures a.fontSize.Some? <==> props.fontSize.Some? && props.fontSize.value > 0
    ensures a.fontSize.Some? ==> a.fontSize.value < 0x1_0000
    ensures a.foreground.Some? <==> props.color.Some?
    ensures a.foreground.Some? ==> StartsWith(a.foreground.value, "#")
    ensures a.background.Some? <==> props.backgroundColor.Some?
    ensures a.background.Some? ==> StartsWith(a.background.value, "#")
  {
    var underline := if props.underline.Some? && props.underline.value != "none" then Some(true) else None;
    var fontSize := if props.fontSize.Some? && props.fontSize.value > 0 then Some((props.fontSize.value / 2) % 0x1_0000) else None;
    TextAttributes(props.bold, props.italic, underline, fontSize, props.fontName,
                   MapWithHash(props.color), MapWithHash(props.backgroundColor))
  }

  /** A size stored as twice its points, as documents store it, converts
      back to the points; an odd half-point count loses its half. */
  lemma FontSizeFromHalfPoints(points: nat, half: nat)
    requires 0 < points < 0x1_0000 && half < 2
    ensures ConvertRunProperties(DefaultRunProperties().(fontSize := Some(2 * points + half))).fontSize == Some(points)
  {
  }

  // ---------------------------------------------------------------------
  // Segments: what each piece stands for
  // ---------------------------------------------------------------------

  /** The text a piece stands for, with the attributes it carries. */
  datatype Segment = Segment(text: string, attributes: Option<TextAttributes>)

  const ParagraphBreak := Segment("\n", None)

  /** The pieces of a paragraph's runs: one per non-empty run. */
  function RunSegments(runs: seq<Run>): (r: seq<Segment>)
    ensures forall k :: 0 <= k < |r| ==> |r[k].text| > 0 && r[k].attributes.Some?
  {
    if |runs| == 0 then []
    else if |runs[0].text| == 0 then RunSegments(runs[1..])
    else [Segment(runs[0].text, Some(ConvertRunProperties(runs[0].properties)))] + RunSegments(runs[1..])
  }

  /** The pieces of the paragraphs from i on: each paragraph's runs, and a
      break after every paragraph but the last. */
  function DocumentSegments(paras: seq<Paragraph>, i: nat): (r: seq<Segment>)
    requires i <= |paras|
    ensures forall k :: 0 <= k < |r| ==> |r[k].text| > 0
    decreases |paras| - i
  {
    if i == |paras| then []
    else RunSegments(paras[i].runs) + (if i < |paras| - 1 then [ParagraphBreak] else []) + DocumentSegments(paras, i + 1)
  }

  function ConcatTexts(segs: seq<Segment>): string
  {
    if |segs| == 0 then "" else ConcatTexts(segs[..|segs| - 1]) + segs[|segs| - 1].text
  }

  /** The piece for segment k: it starts where the text before it ends. */
  function PieceFor(segs: seq<Segment>, k: nat): ConvertedPiece
    requires k < |segs|
  {
    ConvertedPiece(Utf8Len(ConcatTexts(segs[..k])), Utf8Len(segs[k].text), |segs[k].text|, segs[k].attributes)
  }

  function PiecesOf(segs: seq<Segment>): (r: seq<ConvertedPiece>)
    ensures |r| == |segs|
  {
    seq(|segs|, k requires 0 <= k < |segs| => PieceFor(segs, k))
  }

  datatype Conversion = Conversion(text: string, pieces: seq<ConvertedPiece>, offset: nat)

  /** The state after converting the segments `segs`. */
  function Of(segs: seq<Segment>): Conversion
  {
    Conversion(ConcatTexts(segs), PiecesOf(segs), Utf8Len(ConcatTexts(segs)))
  }

  // ---------------------------------------------------------------------
  // The conversion loop
  // ---------------------------------------------------------------------

  /** One push: the segment's text joins the buffer and a piece for it
      starts at the current offset. */
  function Step(acc: Conversion, seg: Segment): Conversion
  {
    Conversion(acc.text + seg.text,
               acc.pieces + [ConvertedPiece(acc.offset, Utf8Len(seg.text), |seg.text|, seg.attributes)],
               acc.offset + Utf8Len(seg.text))
  }

  /** The inner loop over a paragraph's runs; empty runs are skipped. */
  function ConvertRuns(runs: seq<Run>, acc: Conversion): Conversion
  {
    if |runs| == 0 then acc
    else if |runs[0].text| == 0 then ConvertRuns(runs[1..], acc)
    else ConvertRuns(runs[1..], Step(acc, Segment(runs[0].text, Some(ConvertRunProperties(runs[0].properties)))))
  }

  /** The outer loop from paragraph i on. */
  function ConvertParagraphs(paras: seq<Paragraph>, i: nat, acc: Conversion): Conversion
    requires i <= |paras|
    decreases |paras| - i
  {
    if i == |paras| then acc
    else
      var afterRuns := ConvertRuns(paras[i].runs, acc);
      var afterBreak := if i < |paras| - 1 then Step(afterRuns, ParagraphBreak) else afterRuns;
      ConvertParagraphs(paras, i + 1, afterBreak)
  }

  lemma StepOf(segs: seq<Segment>, seg: Segment)
    ensures Step(Of(segs), seg) == Of(segs + [seg])
  {
    var all := segs + [seg];
    assert all[..|segs|] == segs;
    assert ConcatTexts(all) == ConcatTexts(segs) + seg.text;
    var p := PiecesOf(segs) + [ConvertedPiece(Utf8Len(ConcatTexts(segs)), Utf8Len(seg.text), |seg.text|, seg.attributes)];
    forall k | 0 <= k < |all|
      ensures p[k] == PiecesOf(all)[k]
    {
      if k < |segs| {
        assert all[..k] == segs[..k];
      }
    }
    Utf8LenAppend(ConcatTexts(segs), seg.text);
  }

  lemma {:induction false} ConvertRunsOf(runs: seq<Run>, segs: seq<Segment>)
    ensures ConvertRuns(runs, Of(segs)) == Of(segs + RunSegments(runs))
  {
    if |runs| == 0 {
      assert segs + [] == segs;
    } else if |runs[0].text| == 0 {
      ConvertRunsOf(runs[1..], segs);
    } else {
      var seg := Segment(runs[0].text, Some(ConvertRunProperties(runs[0].properties)));
      StepOf(segs, seg);
      ConvertRunsOf(runs[1..], segs + [seg]);
      AppendAssoc(segs, [seg], RunSegments(runs[1..]));
    }
  }

  lemma AppendAssoc(a: seq<Segment>, b: seq<Segment>, c: seq<Segment>)
    ensures a + b + c == a + (b + c)
  {
  }

  lemma {:induction false} ConvertParagraphsOf(paras: seq<Paragraph>, i: nat, segs: seq<Segment>)
    requires i <= |paras|
    ensures ConvertParagraphs(paras, i, Of(segs)) == Of(segs + DocumentSegments(paras, i))
    decreases |paras| - i
  {
    if i == |paras| {
      assert segs + [] == segs;
    } else {
      ConvertRunsOf(paras[i].runs, segs);
      var afterRuns := segs + RunSegments(paras[i].runs);
      var tail := if i < |paras| - 1 then [ParagraphBreak] else [];
      if i < |paras| - 1 {
        StepOf(afterRuns, ParagraphBreak);
      } else {
        assert afterRuns + [] == afterRuns;
      }
      ConvertParagraphsOf(paras, i + 1, afterRuns + tail);
      AppendAssoc3(segs, RunSegments(paras[i].runs), tail, DocumentSegments(paras, i + 1));
    }
  }

  lemma AppendAssoc3(a: seq<Segment>, b: seq<Segment>, c: seq<Segment>, d: seq<Segment>)
    ensures a + b + c + d == a + (b + c + d)
  {
  }

  /** `ooxml_to_piece_tree`: the combined buffer and its pieces.  The
      buffer is the segments' texts in order, and piece k covers exactly the
      bytes of segment k, starting where the earlier segments end. */
  function OoxmlToPieceTree(paras: seq<Paragraph>): (r: Conversion)
    ensures r.text == ConcatTexts(DocumentSegments(paras, 0))
    ensures r.pieces == PiecesOf(DocumentSegments(paras, 0))
  {
    ConvertParagraphsOf(paras, 0, []);
    assert Of([]) == Conversion("", [], 0);
    assert [] + DocumentSegments(paras, 0) == DocumentSegments(paras, 0);
    ConvertParagraphs(paras, 0, Conversion("", [], 0))
  }

  // ---------------------------------------------------------------------
  // Properties of the result
  // ---------------------------------------------------------------------

  /** The pieces tile the buffer: the first starts at 0, each starts where
      the previous ends, the last ends at the buffer's byte length, and none
      is empty. */
  lemma PiecesTileBuffer(paras: seq<Paragraph>)
    ensures var r := OoxmlToPieceTree(paras);
            (|r.pieces| > 0 ==> r.pieces[0].start == 0)
            && (forall k :: 0 <= k < |r.pieces| ==> r.pieces[k].length >= 1)
            && (forall k :: 0 <= k < |r.pieces| - 1 ==> r.pieces[k + 1].start == r.pieces[k].start + r.pieces[k].length)
            && (|r.pieces| > 0 ==> r.pieces[|r.pieces| - 1].start + r.pieces[|r.pieces| - 1].length == Utf8Len(r.text))
  {
    var segs := DocumentSegments(paras, 0);
    var r := OoxmlToPieceTree(paras);
    forall k | 0 <= k < |segs|
      ensures PiecesOf(segs)[k].start + PiecesOf(segs)[k].length == Utf8Len(ConcatTexts(segs[..k + 1]))
      ensures PiecesOf(segs)[k].length >= 1
    {
      PieceEnds(segs, k);
    }
    if |segs| > 0 {
      assert segs[..0] == [];
      assert segs[..|segs|] == segs;
    }
  }

  /** Piece k ends where the text of the first k + 1 segments ends. */
  lemma PieceEnds(segs: seq<Segment>, k: nat)
    requires k < |segs| && |segs[k].text| > 0
    ensures PiecesOf(segs)[k].start + PiecesOf(segs)[k].length == Utf8Len(ConcatTexts(segs[..k + 1]))
    ensures PiecesOf(segs)[k].length >= 1
  {
    assert segs[..k + 1][..k] == segs[..k];
    Utf8LenAppend(ConcatTexts(segs[..k]), segs[k].text);
  }

  /** Paragraph text: all of its runs, empty ones included. */
  function ParagraphText(runs: seq<Run>): string
  {
    if |runs| == 0 then "" else runs[0].text + ParagraphText(runs[1..])
  }

  /** The paragraphs from i on, joined by line breaks. */
  function JoinParagraphs(paras: seq<Paragraph>, i: nat): string
    requires i <= |paras|
    decreases |paras| - i
  {
    if i == |paras| then ""
    else if i == |paras| - 1 then ParagraphText(paras[i].runs)
    else ParagraphText(paras[i].runs) + "\n" + JoinParagraphs(paras, i + 1)
  }

  lemma {:induction false} ConcatTextsAppend(a: seq<Segment>, b: seq<Segment>)
    ensures ConcatTexts(a + b) == ConcatTexts(a) + ConcatTexts(b)
    decreases |b|
  {
    if |b| == 0 {
      assert a + b == a;
    } else {
      var b' := b[..|b| - 1];
      assert (a + b)[..|a + b| - 1] == a + b';
      ConcatTextsAppend(a, b');
    }
  }

  lemma ConcatTextsCons(seg: Segment, rest: seq<Segment>)
    ensures ConcatTexts([seg] + rest) == seg.text + ConcatTexts(rest)
  {
    ConcatTextsAppend([seg], rest);
    assert [seg][..0] == [];
  }

  lemma {:induction false} RunSegmentsText(runs: seq<Run>)
    ensures ConcatTexts(RunSegments(runs)) == ParagraphText(runs)
  {
    if |runs| > 0 {
      RunSegmentsText(runs[1..]);
      if |runs[0].text| > 0 {
        ConcatTextsCons(Segment(runs[0].text, Some(ConvertRunProperties(runs[0].properties))), RunSegments(runs[1..]));
      } else {
        EmptyPrefix(runs[0].text, ParagraphText(runs[1..]));
      }
    }
  }

  lemma JoinStep(all: string, first: string, rest: string, joined: string, text: string, joinedRest: string)
    requires all == first + "\n" + rest && first == text && rest == joinedRest && joined == text + "\n" + joinedRest
    ensures all == joined
  {
  }

  lemma EmptyPrefix(e: string, x: string)
    requires |e| == 0
    ensures e + x == x
  {
  }

  /** One paragraph's share of the buffer: its text, then a break unless
      it is the last. */
  lemma DocumentSegmentsUnfold(paras: seq<Paragraph>, i: nat)
    requires i < |paras|
    ensures i < |paras| - 1 ==>
              ConcatTexts(DocumentSegments(paras, i))
              == ConcatTexts(RunSegments(paras[i].runs)) + "\n" + ConcatTexts(DocumentSegments(paras, i + 1))
    ensures i == |paras| - 1 ==> ConcatTexts(DocumentSegments(paras, i)) == ConcatTexts(RunSegments(paras[i].runs))
  {
    var runs := RunSegments(paras[i].runs);
    var rest := DocumentSegments(paras, i + 1);
    if i < |paras| - 1 {
      assert DocumentSegments(paras, i) == runs + [ParagraphBreak] + rest;
      ConcatTextsAppend(runs + [ParagraphBreak], rest);
      ConcatTextsAppend(runs, [ParagraphBreak]);
      ConcatTextsCons(ParagraphBreak, []);
      assert [ParagraphBreak] + [] == [ParagraphBreak];
    } else {
      assert DocumentSegments(paras, i) == runs + [] + [];
      assert runs + [] + [] == runs;
    }
  }

  /** The buffer is the paragraphs' texts joined by '\n', with no break
      after the last paragraph. */
  lemma {:induction false} BufferJoinsParagraphs(paras: seq<Paragraph>, i: nat)
    requires i <= |paras|
    ensures ConcatTexts(DocumentSegments(paras, i)) == JoinParagraphs(paras, i)
    decreases |paras| - i
  {
    if i < |paras| {
      DocumentSegmentsUnfold(paras, i);
      RunSegmentsText(paras[i].runs);
      if i < |paras| - 1 {
        BufferJoinsParagraphs(paras, i + 1);
        JoinStep(ConcatTexts(DocumentSegments(paras, i)), ConcatTexts(RunSegments(paras[i].runs)), ConcatTexts(DocumentSegments(paras, i + 1)),
                 JoinParagraphs(paras, i), ParagraphText(paras[i].runs), JoinParagraphs(paras, i + 1));
      }
    }
  }

  /** The converter's own example: "Hello " in bold and "World" in italic at
      24 half-points make "Hello World" in two pieces of 6 and 5 bytes, the
      second at 12 points. */
  lemma ConversionExample()
    ensures var p := Paragraph("", DefaultParagraphProperties(),
                       [Run("Hello ", DefaultRunProperties().(bold := Some(true))),
                        Run("World", DefaultRunProperties().(italic := Some(true), fontSize := Some(24)))]);
            var r := OoxmlToPieceTree([p]);
            r.text == "Hello World" && |r.pieces| == 2 && r.pieces[0].length == 6 && r.pieces[1].length == 5
            && r.pieces[0].attributes == Some(ConvertRunProperties(DefaultRunProperties().(bold := Some(true))))
            && r.pieces[1].attributes.Some? && r.pieces[1].attributes.value.fontSize == Some(12)
  {
    var p := Paragraph("", DefaultParagraphProperties(),
               [Run("Hello ", DefaultRunProperties().(bold := Some(true))),
                Run("World", DefaultRunProperties().(italic := Some(true), fontSize := Some(24)))]);
    TwoRunSegments(p);
    var s0 := Segment("Hello ", Some(ConvertRunProperties(p.runs[0].properties)));
    var s1 := Segment("World", Some(ConvertRunProperties(p.runs[1].properties)));
    TwoSegmentPieces(s0, s1);
    TwelvePoints(p.runs[1].properties);
    assert "Hello " + "World" == "Hello World";
    assert Utf8Len("Hello ") == 6 && Utf8Len("World") == 5;
  }

  lemma TwelvePoints(props: RunProperties)
    requires props.fontSize == Some(24)
    ensures ConvertRunProperties(props).fontSize == Some(12)
  {
  }

  /** A paragraph of two non-empty runs gives one segment per run and no break. */
  lemma TwoRunSegments(p: Paragraph)
    requires |p.runs| == 2 && |p.runs[0].text| > 0 && |p.runs[1].text| > 0
    ensures DocumentSegments([p], 0) == [Segment(p.runs[0].text, Some(ConvertRunProperties(p.runs[0].properties))),
                                         Segment(p.runs[1].text, Some(ConvertRunProperties(p.runs[1].properties)))]
  {
    var s0 := Segment(p.runs[0].text, Some(ConvertRunProperties(p.runs[0].properties)));
    var s1 := Segment(p.runs[1].text, Some(ConvertRunProperties(p.runs[1].properties)));
    assert p.runs[1..][1..] == [];
    assert RunSegments(p.runs[1..]) == [s1] + RunSegments([]);
    assert RunSegments(p.runs) == [s0] + [s1];
    assert DocumentSegments([p], 1) == [];
    assert DocumentSegments([p], 0) == RunSegments(p.runs) + [] + [];
  }

  /** Two segments: the buffer is both texts, and the pieces are one per text. */
  lemma TwoSegmentPieces(s0: Segment, s1: Segment)
    ensures ConcatTexts([s0, s1]) == s0.text + s1.text
    ensures |PiecesOf([s0, s1])| == 2
    ensures PiecesOf([s0, s1])[0] == ConvertedPiece(0, Utf8Len(s0.text), |s0.text|, s0.attributes)
    ensures PiecesOf([s0, s1])[1] == ConvertedPiece(Utf8Len(s0.text), Utf8Len(s1.text), |s1.text|, s1.attributes)
  {
    ConcatTextsCons(s0, [s1]);
    ConcatTextsCons(s1, []);
    assert [s0, s1][..1] == [s0];
    assert [s0, s1][..0] == [];
    assert [s0][..0] == [];
    EmptyPrefix(ConcatTexts([]), s0.text);
  }
}
