/**
 * Writing a Word document back to Office Open XML
 * (`ooxml/serializer.rs`): the XML escapers, the paragraph, run and
 * property fragments, the styles part with its built-in fallback, the
 * relationships and content-types parts, and the list of parts and root
 * relationships a save produces.
 *
 * Property fragments are modelled as a list of elements rendered in order,
 * so that what an element list says can be read back into properties.
 * Hash-map iteration order (styles, content types) is modelled as a
 * sequence the caller chooses.
 */
module OoxmlSerializer {
  import opened Wrappers
  import opened TextUtil
  import opened OoxmlTypes
  import Clipboard

  predicate EndsWith(s: string, p: string)
  {
    |p| <= |s| && s[|s| - |p|..] == p
  }

  // ---------------------------------------------------------------------
  // Escaping
  // ---------------------------------------------------------------------

  /** `escape_xml_text`: '&' first, then '<' and '>'. */
  function EscapeXmlText(text: string): (r: string)
    ensures '<' !in r && '>' !in r
  {
    ReplaceCharKeepsAbsent(ReplaceChar(ReplaceChar(text, '&', "&amp;"), '<', "&lt;"), '>', "&gt;", '<');
    ReplaceChar(ReplaceChar(ReplaceChar(text, '&', "&amp;"), '<', "&lt;"), '>', "&gt;")
  }

  /** `escape_xml_attr`: the text escaper, then '"' and '\''. */
  function EscapeXmlAttr(attr: string): (r: string)
    ensures '<' !in r && '>' !in r && '"' !in r && '\'' !in r
  {
    var t := EscapeXmlText(attr);
    var q := ReplaceChar(t, '"', "&quot;");
    ReplaceCharKeepsAbsent(t, '"', "&quot;", '<');
    ReplaceCharKeepsAbsent(t, '"', "&quot;", '>');
    ReplaceCharKeepsAbsent(q, '\'', "&apos;", '<');
    ReplaceCharKeepsAbsent(q, '\'', "&apos;", '>');
    ReplaceCharKeepsAbsent(q, '\'', "&apos;", '"');
    ReplaceChar(q, '\'', "&apos;")
  }

  /** The attribute escaper writes each character's predefined entity, the
      same as escaping character by character. */
  lemma EscapeXmlAttrIsPerChar(attr: string)
    ensures EscapeXmlAttr(attr) == EscapeXmlEach(attr)
  {
    Clipboard.EscapeXmlIsPerChar(attr);
  }

  /** `str::replace` with a pattern of one or more characters: leftmost,
      non-overlapping occurrences. */
  function ReplaceStr(s: string, pat: string, rep: string): string
    requires |pat| > 0
    decreases |s|
  {
    if |s| < |pat| then s
    else if s[..|pat|] == pat then rep + ReplaceStr(s[|pat|..], pat, rep)
    else [s[0]] + ReplaceStr(s[1..], pat, rep)
  }

  /** The decoder's pattern at stage k: the quote entities, then "&lt;" and
      "&gt;", and "&amp;" last. */
  function DecodePattern(k: nat): string
    requires k < 5
  {
    if k == 0 then "&quot;" else if k == 1 then "&apos;" else if k == 2 then "&lt;" else if k == 3 then "&gt;" else "&amp;"
  }

  function DecodeReplacement(k: nat): string
    requires k < 5
  {
    if k == 0 then "\"" else if k == 1 then "'" else if k == 2 then "<" else if k == 3 then ">" else "&"
  }

  /** Decoding stages k to 4, in order. */
  function DecodeFrom(k: nat, s: string): string
    requires k <= 5
    decreases 5 - k
  {
    if k == 5 then s else DecodeFrom(k + 1, ReplaceStr(s, DecodePattern(k), DecodeReplacement(k)))
  }

  /** Reading escaped text or an escaped attribute value back: "&quot;",
      "&apos;", "&lt;", "&gt;", then "&amp;". */
  function UnescapeXml(s: string): string
  {
    DecodeFrom(0, s)
  }

  /** What character c has become after k decoding stages of its escaped
      form (quotes are escaped only in attributes): stage 0 is the escaped
      form, stage 5 the character itself. */
  function StageChar(attr: bool, k: nat, c: char): string
    requires k <= 5
  {
    if c == '&' && k < 5 then "&amp;"
    else if c == '>' && k < 4 then "&gt;"
    else if c == '<' && k < 3 then "&lt;"
    else if attr && c == '\'' && k < 2 then "&apos;"
    else if attr && c == '"' && k < 1 then "&quot;"
    else [c]
  }

  function Stage(attr: bool, k: nat, t: string): string
    requires k <= 5
  {
    if |t| == 0 then "" else StageChar(attr, k, t[0]) + Stage(attr, k, t[1..])
  }

  lemma {:induction false} ReplaceStrPlain(x: string, rest: string, pat: string, rep: string)
    requires |pat| > 0
    requires forall i :: 0 <= i < |x| ==> x[i] != pat[0]
    ensures ReplaceStr(x + rest, pat, rep) == x + ReplaceStr(rest, pat, rep)
  {
    if |x| > 0 {
      var s := x + rest;
      assert s[1..] == x[1..] + rest;
      ReplaceStrPlain(x[1..], rest, pat, rep);
      if |s| < |pat| {
        assert |rest| < |pat|;
        assert x == [x[0]] + x[1..];
      } else {
        assert s[..|pat|][0] == x[0];
        assert x == [x[0]] + x[1..];
      }
    } else {
      assert x + rest == rest;
    }
  }

  lemma ReplaceStrMatch(pat: string, rest: string, rep: string)
    requires |pat| > 0
    ensures ReplaceStr(pat + rest, pat, rep) == rep + ReplaceStr(rest, pat, rep)
  {
    assert (pat + rest)[..|pat|] == pat;
    assert (pat + rest)[|pat|..] == rest;
  }

  /** An entity other than the pattern passes through unchanged. */
  lemma ReplaceStrOtherEntity(e: string, rest: string, pat: string, rep: string, j: nat)
    requires 1 <= j < |e| && j < |pat| && e[j] != pat[j]
    requires forall i :: 1 <= i < |e| ==> e[i] != pat[0]
    ensures ReplaceStr(e + rest, pat, rep) == e + ReplaceStr(rest, pat, rep)
  {
    var s := e + rest;
    ReplaceStrPlain(e[1..], rest, pat, rep);
    assert e == [e[0]] + e[1..];
    if |s| < |pat| {
      assert |rest| < |pat|;
    } else {
      assert s[..|pat|][j] == e[j];
      assert s[1..] == e[1..] + rest;
      assert ReplaceStr(s, pat, rep) == [s[0]] + ReplaceStr(s[1..], pat, rep);
    }
  }

  lemma StageCharStep(attr: bool, k: nat, c: char, rest: string)
    requires k < 5
    ensures ReplaceStr(StageChar(attr, k, c) + rest, DecodePattern(k), DecodeReplacement(k))
            == StageChar(attr, k + 1, c) + ReplaceStr(rest, DecodePattern(k), DecodeReplacement(k))
  {
    var pat, rep := DecodePattern(k), DecodeReplacement(k);
    var x := StageChar(attr, k, c);
    if x == pat {
      ReplaceStrMatch(pat, rest, rep);
    } else if |x| == 1 {
      ReplaceStrPlain(x, rest, pat, rep);
    } else if x[1] != pat[1] {
      ReplaceStrOtherEntity(x, rest, pat, rep, 1);
    } else {
      ReplaceStrOtherEntity(x, rest, pat, rep, 2);
    }
  }

  lemma {:induction false} StageStep(attr: bool, k: nat, t: string)
    requires k < 5
    ensures ReplaceStr(Stage(attr, k, t), DecodePattern(k), DecodeReplacement(k)) == Stage(attr, k + 1, t)
  {
    if |t| > 0 {
      StageCharStep(attr, k, t[0], Stage(attr, k, t[1..]));
      StageStep(attr, k, t[1..]);
    }
  }

  lemma {:induction false} StageLast(attr: bool, t: string)
    ensures Stage(attr, 5, t) == t
  {
    if |t| > 0 {
      StageLast(attr, t[1..]);
      assert t == [t[0]] + t[1..];
    }
  }

  lemma {:induction false} StageDecodes(attr: bool, k: nat, t: string)
    requires k <= 5
    ensures DecodeFrom(k, Stage(attr, k, t)) == t
    decreases 5 - k
  {
    if k == 5 {
      StageLast(attr, t);
    } else {
      StageStep(attr, k, t);
      StageDecodes(attr, k + 1, t);
    }
  }

  lemma ReplaceCharOne(c: char, d: char, rep: string)
    ensures ReplaceChar([c], d, rep) == if c == d then rep else [c]
  {
    assert [c][1..] == [];
  }

  lemma EscapeOneTextChar(c: char)
    ensures EscapeXmlText([c]) == StageChar(false, 0, c)
  {
    var a1 := ReplaceChar([c], '&', "&amp;");
    ReplaceCharOne(c, '&', "&amp;");
    var a2 := ReplaceChar(a1, '<', "&lt;");
    if c == '&' {
      ReplaceCharAbsent(a1, '<', "&lt;");
      ReplaceCharAbsent(a2, '>', "&gt;");
    } else {
      ReplaceCharOne(c, '<', "&lt;");
      if c == '<' {
        ReplaceCharAbsent(a2, '>', "&gt;");
      } else {
        ReplaceCharOne(c, '>', "&gt;");
      }
    }
  }

  lemma {:induction false} EscapeXmlTextIsStage(t: string)
    ensures EscapeXmlText(t) == Stage(false, 0, t)
  {
    if |t| > 0 {
      var c := t[0];
      var rest := t[1..];
      assert t == [c] + rest;
      ReplaceCharAppend([c], rest, '&', "&amp;");
      var a1, b1 := ReplaceChar([c], '&', "&amp;"), ReplaceChar(rest, '&', "&amp;");
      ReplaceCharAppend(a1, b1, '<', "&lt;");
      var a2, b2 := ReplaceChar(a1, '<', "&lt;"), ReplaceChar(b1, '<', "&lt;");
      ReplaceCharAppend(a2, b2, '>', "&gt;");
      EscapeOneTextChar(c);
      EscapeXmlTextIsStage(rest);
    }
  }

  lemma {:induction false} EscapeXmlEachIsStage(t: string)
    ensures EscapeXmlEach(t) == Stage(true, 0, t)
  {
    if |t| > 0 {
      EscapeXmlEachIsStage(t[1..]);
    }
  }

  /** Decoding the quote entities, "&lt;", "&gt;" and then "&amp;" restores
      escaped text. */
  lemma EscapeXmlTextRoundTrip(t: string)
    ensures UnescapeXml(EscapeXmlText(t)) == t
  {
    EscapeXmlTextIsStage(t);
    StageDecodes(false, 0, t);
  }

  /** The same decoder restores an escaped attribute value. */
  lemma EscapeXmlAttrRoundTrip(t: string)
    ensures UnescapeXml(EscapeXmlAttr(t)) == t
  {
    EscapeXmlAttrIsPerChar(t);
    EscapeXmlEachIsStage(t);
    StageDecodes(true, 0, t);
  }

  // ---------------------------------------------------------------------
  // Property fragments
  // ---------------------------------------------------------------------

  /** Rust's `{}` formatting of an `i32`. */
  function DecimalString(i: int): (r: string)
    ensures |r| >= 1
  {
    if i < 0 then "-" + NatToString(-i) else NatToString(i)
  }

  /** One child element of `<w:pPr>` or `<w:rPr>`, with its value. */
  datatype PropertyElement =
    | Justification(alignment: string)
    | IndentLeft(twips: int)
    | IndentRight(twips: int)
    | IndentFirstLine(twips: int)
    | SpacingBefore(twips: int)
    | SpacingAfter(twips: int)
    | LineSpacing(spacing: int)
    | Bold(on: bool)
    | Italic(on: bool)
    | Underline(style: string)
    | Size(halfPoints: int)
    | Fonts(ascii: string)
    | Color(color: string)
    | Shading(fill: string)

  function Attribute(name: string, value: string): string
  {
    " " + name + "=\"" + value + "\""
  }

  function Flag(on: bool): string
  {
    if on then "1" else "0"
  }

  function RenderElement(e: PropertyElement): (r: string)
    ensures |r| > 0 && r[0] == '<'
  {
    match e
    case Justification(v) => "<w:jc" + Attribute("w:val", EscapeXmlAttr(v)) + "/>"
    case IndentLeft(n) => "<w:ind" + Attribute("w:left", DecimalString(n)) + "/>"
    case IndentRight(n) => "<w:ind" + Attribute("w:right", DecimalString(n)) + "/>"
    case IndentFirstLine(n) => "<w:ind" + Attribute("w:firstLine", DecimalString(n)) + "/>"
    case SpacingBefore(n) => "<w:spacing" + Attribute("w:before", DecimalString(n)) + "/>"
    case SpacingAfter(n) => "<w:spacing" + Attribute("w:after", DecimalString(n)) + "/>"
    case LineSpacing(n) => "<w:spacing" + Attribute("w:line", DecimalString(n)) + "/>"
    case Bold(b) => "<w:b" + Attribute("w:val", Flag(b)) + "/>"
    case Italic(b) => "<w:i" + Attribute("w:val", Flag(b)) + "/>"
    case Underline(u) => "<w:u" + Attribute("w:val", EscapeXmlAttr(u)) + "/>"
    case Size(n) => "<w:sz" + Attribute("w:val", DecimalString(n)) + "/>"
    case Fonts(f) => "<w:rFonts" + Attribute("w:ascii", EscapeXmlAttr(f)) + "/>"
    case Color(c) => "<w:color" + Attribute("w:val", EscapeXmlAttr(c)) + "/>"
    case Shading(f) => "<w:shd" + Attribute("w:fill", EscapeXmlAttr(f)) + "/>"
  }

  function RenderElements(es: seq<PropertyElement>): string
  {
    if |es| == 0 then "" else RenderElement(es[0]) + RenderElements(es[1..])
  }

  /** A property block: nothing at all when there are no elements. */
  function PropertyBlock(open: string, close: string, es: seq<PropertyElement>): (r: string)
    requires |open| > 0
    ensures |r| == 0 <==> |es| == 0
    ensures |es| > 0 ==> StartsWith(r, open) && EndsWith(r, close)
  {
    if |es| == 0 then "" else open + RenderElements(es) + close
  }

  /** The elements `serialize_paragraph_properties` writes, in its order. */
  function ParagraphElements(p: ParagraphProperties): seq<PropertyElement>
  {
    IndentElements(p) + SpacingElements(p)
  }

  function IndentElements(p: ParagraphProperties): seq<PropertyElement>
  {
    (if p.alignment.Some? then [Justification(p.alignment.value)] else [])
    + (if p.indentLeft.Some? then [IndentLeft(p.indentLeft.value)] else [])
    + (if p.indentRight.Some? then [IndentRight(p.indentRight.value)] else [])
    + (if p.indentFirstLine.Some? then [IndentFirstLine(p.indentFirstLine.value)] else [])
  }

  function SpacingElements(p: ParagraphProperties): seq<PropertyElement>
  {
    (if p.spacingBefore.Some? then [SpacingBefore(p.spacingBefore.value)] else [])
    + (if p.spacingAfter.Some? then [SpacingAfter(p.spacingAfter.value)] else [])
    + (if p.spacingLine.Some? then [LineSpacing(p.spacingLine.value)] else [])
  }

  /** The elements `serialize_run_properties` writes, in its order; the
      size is written doubled. */
  function RunElements(p: RunProperties): seq<PropertyElement>
  {
    StyleElements(p) + FontElements(p)
  }

  function StyleElements(p: RunProperties): seq<PropertyElement>
  {
    (if p.bold.Some? then [Bold(p.bold.value)] else [])
    + (if p.italic.Some? then [Italic(p.italic.value)] else [])
    + (if p.underline.Some? then [Underline(p.underline.value)] else [])
  }

  function FontElements(p: RunProperties): seq<PropertyElement>
  {
    (if p.fontSize.Some? then [Size(p.fontSize.value * 2)] else [])
    + (if p.fontName.Some? then [Fonts(p.fontName.value)] else [])
    + (if p.color.Some? then [Color(p.color.value)] else [])
    + (if p.backgroundColor.Some? then [Shading(p.backgroundColor.value)] else [])
  }

  /** `serialize_paragraph_properties`. */
  function SerializeParagraphProperties(p: ParagraphProperties): (r: string)
    ensures |r| == 0 <==> p == DefaultParagraphProperties()
    ensures |r| > 0 ==> StartsWith(r, "<w:pPr>") && EndsWith(r, "</w:pPr>")
  {
    ParagraphElementsEmpty(p);
    PropertyBlock("<w:pPr>", "</w:pPr>", ParagraphElements(p))
  }

  /** `serialize_run_properties`. */
  function SerializeRunProperties(p: RunProperties): (r: string)
    ensures |r| == 0 <==> p == DefaultRunProperties()
    ensures |r| > 0 ==> StartsWith(r, "<w:rPr>") && EndsWith(r, "</w:rPr>")
  {
    RunElementsEmpty(p);
    PropertyBlock("<w:rPr>", "</w:rPr>", RunElements(p))
  }

  /** Reading an element into paragraph properties; run elements leave
      them alone. */
  function ApplyParagraphElement(p: ParagraphProperties, e: PropertyElement): ParagraphProperties
  {
    match e
    case Justification(v) => p.(alignment := Some(v))
    case IndentLeft(n) => p.(indentLeft := Some(n))
    case IndentRight(n) => p.(indentRight := Some(n))
    case IndentFirstLine(n) => p.(indentFirstLine := Some(n))
    case SpacingBefore(n) => p.(spacingBefore := Some(n))
    case SpacingAfter(n) => p.(spacingAfter := Some(n))
    case LineSpacing(n) => p.(spacingLine := Some(n))
    case _ => p
  }

  /** Reading an element into run properties; a size is halved as the
      document reader does. */
  function ApplyRunElement(p: RunProperties, e: PropertyElement): RunProperties
  {
    match e
    case Bold(b) => p.(bold := Some(b))
    case Italic(b) => p.(italic := Some(b))
    case Underline(u) => p.(underline := Some(u))
    case Size(n) => p.(fontSize := Some(n / 2))
    case Fonts(f) => p.(fontName := Some(f))
    case Color(c) => p.(color := Some(c))
    case Shading(f) => p.(backgroundColor := Some(f))
    case _ => p
  }

  function ReadParagraphElements(es: seq<PropertyElement>, acc: ParagraphProperties): ParagraphProperties
  {
    if |es| == 0 then acc else ReadParagraphElements(es[1..], ApplyParagraphElement(acc, es[0]))
  }

  function ReadRunElements(es: seq<PropertyElement>, acc: RunProperties): RunProperties
  {
    if |es| == 0 then acc else ReadRunElements(es[1..], ApplyRunElement(acc, es[0]))
  }

  lemma {:induction false} ReadParagraphAppend(a: seq<PropertyElement>, b: seq<PropertyElement>, acc: ParagraphProperties)
    ensures ReadParagraphElements(a + b, acc) == ReadParagraphElements(b, ReadParagraphElements(a, acc))
  {
    if |a| > 0 {
      assert (a + b)[1..] == a[1..] + b;
      ReadParagraphAppend(a[1..], b, ApplyParagraphElement(acc, a[0]));
    } else {
      assert a + b == b;
    }
  }

  lemma {:induction false} ReadRunAppend(a: seq<PropertyElement>, b: seq<PropertyElement>, acc: RunProperties)
    ensures ReadRunElements(a + b, acc) == ReadRunElements(b, ReadRunElements(a, acc))
  {
    if |a| > 0 {
      assert (a + b)[1..] == a[1..] + b;
      ReadRunAppend(a[1..], b, ApplyRunElement(acc, a[0]));
    } else {
      assert a + b == b;
    }
  }

  lemma ReadParagraphOne(e: PropertyElement, acc: ParagraphProperties)
    ensures ReadParagraphElements([e], acc) == ApplyParagraphElement(acc, e)
  {
    assert [e][1..] == [];
  }

  lemma ReadRunOne(e: PropertyElement, acc: RunProperties)
    ensures ReadRunElements([e], acc) == ApplyRunElement(acc, e)
  {
    assert [e][1..] == [];
  }

  lemma ReadIndentElements(p: ParagraphProperties)
    ensures ReadParagraphElements(IndentElements(p), DefaultParagraphProperties())
            == DefaultParagraphProperties().(alignment := p.alignment, indentLeft := p.indentLeft,
                                             indentRight := p.indentRight, indentFirstLine := p.indentFirstLine)
  {
    var e1 := if p.alignment.Some? then [Justification(p.alignment.value)] else [];
    var e2 := if p.indentLeft.Some? then [IndentLeft(p.indentLeft.value)] else [];
    var e3 := if p.indentRight.Some? then [IndentRight(p.indentRight.value)] else [];
    var e4 := if p.indentFirstLine.Some? then [IndentFirstLine(p.indentFirstLine.value)] else [];
    var d := DefaultParagraphProperties();
    ReadParagraphAppend(e1 + e2 + e3, e4, d);
    ReadParagraphAppend(e1 + e2, e3, d);
    ReadParagraphAppend(e1, e2, d);
    var a1 := ReadParagraphElements(e1, d);
    if p.alignment.Some? { ReadParagraphOne(e1[0], d); }
    assert a1 == d.(alignment := p.alignment);
    var a2 := ReadParagraphElements(e2, a1);
    if p.indentLeft.Some? { ReadParagraphOne(e2[0], a1); }
    assert a2 == a1.(indentLeft := p.indentLeft);
    var a3 := ReadParagraphElements(e3, a2);
    if p.indentRight.Some? { ReadParagraphOne(e3[0], a2); }
    assert a3 == a2.(indentRight := p.indentRight);
    if p.indentFirstLine.Some? { ReadParagraphOne(e4[0], a3); }
  }

  lemma ReadSpacingElements(p: ParagraphProperties, q: ParagraphProperties)
    requires q.spacingBefore.None? && q.spacingAfter.None? && q.spacingLine.None?
    ensures ReadParagraphElements(SpacingElements(p), q)
            == q.(spacingBefore := p.spacingBefore, spacingAfter := p.spacingAfter, spacingLine := p.spacingLine)
  {
    var e1 := if p.spacingBefore.Some? then [SpacingBefore(p.spacingBefore.value)] else [];
    var e2 := if p.spacingAfter.Some? then [SpacingAfter(p.spacingAfter.value)] else [];
    var e3 := if p.spacingLine.Some? then [LineSpacing(p.spacingLine.value)] else [];
    ReadParagraphAppend(e1 + e2, e3, q);
    ReadParagraphAppend(e1, e2, q);
    var a1 := ReadParagraphElements(e1, q);
    if p.spacingBefore.Some? { ReadParagraphOne(e1[0], q); }
    assert a1 == q.(spacingBefore := p.spacingBefore);
    var a2 := ReadParagraphElements(e2, a1);
    if p.spacingAfter.Some? { ReadParagraphOne(e2[0], a1); }
    assert a2 == a1.(spacingAfter := p.spacingAfter);
    if p.spacingLine.Some? { ReadParagraphOne(e3[0], a2); }
  }

  /** The paragraph elements written say everything about the properties:
      reading them back gives the properties. */
  lemma ParagraphPropertiesRoundTrip(p: ParagraphProperties)
    ensures ReadParagraphElements(ParagraphElements(p), DefaultParagraphProperties()) == p
  {
    ReadParagraphAppend(IndentElements(p), SpacingElements(p), DefaultParagraphProperties());
    ReadIndentElements(p);
    ReadSpacingElements(p, ReadParagraphElements(IndentElements(p), DefaultParagraphProperties()));
  }

  lemma ReadStyleElements(p: RunProperties)
    ensures ReadRunElements(StyleElements(p), DefaultRunProperties())
            == DefaultRunProperties().(bold := p.bold, italic := p.italic, underline := p.underline)
  {
    var e1 := if p.bold.Some? then [Bold(p.bold.value)] else [];
    var e2 := if p.italic.Some? then [Italic(p.italic.value)] else [];
    var e3 := if p.underline.Some? then [Underline(p.underline.value)] else [];
    var d := DefaultRunProperties();
    ReadRunAppend(e1 + e2, e3, d);
    ReadRunAppend(e1, e2, d);
    var a1 := ReadRunElements(e1, d);
    if p.bold.Some? { ReadRunOne(e1[0], d); }
    assert a1 == d.(bold := p.bold);
    var a2 := ReadRunElements(e2, a1);
    if p.italic.Some? { ReadRunOne(e2[0], a1); }
    assert a2 == a1.(italic := p.italic);
    if p.underline.Some? { ReadRunOne(e3[0], a2); }
  }

  lemma ReadFontElements(p: RunProperties, q: RunProperties)
    requires q.fontSize.None? && q.fontName.None? && q.color.None? && q.backgroundColor.None?
    ensures ReadRunElements(FontElements(p), q)
            == q.(fontSize := p.fontSize, fontName := p.fontName, color := p.color, backgroundColor := p.backgroundColor)
  {
    var e1 := if p.fontSize.Some? then [Size(p.fontSize.value * 2)] else [];
    var e2 := if p.fontName.Some? then [Fonts(p.fontName.value)] else [];
    var e3 := if p.color.Some? then [Color(p.color.value)] else [];
    var e4 := if p.backgroundColor.Some? then [Shading(p.backgroundColor.value)] else [];
    ReadRunAppend(e1 + e2 + e3, e4, q);
    ReadRunAppend(e1 + e2, e3, q);
    ReadRunAppend(e1, e2, q);
    var a1 := ReadRunElements(e1, q);
    if p.fontSize.Some? { ReadRunOne(e1[0], q); }
    assert a1 == q.(fontSize := p.fontSize);
    var a2 := ReadRunElements(e2, a1);
    if p.fontName.Some? { ReadRunOne(e2[0], a1); }
    assert a2 == a1.(fontName := p.fontName);
    var a3 := ReadRunElements(e3, a2);
    if p.color.Some? { ReadRunOne(e3[0], a2); }
    assert a3 == a2.(color := p.color);
    if p.backgroundColor.Some? { ReadRunOne(e4[0], a3); }
  }

  /** Reading the run elements back, with the size halved as the document
      reader does, gives the properties. */
  lemma RunPropertiesRoundTrip(p: RunProperties)
    ensures ReadRunElements(RunElements(p), DefaultRunProperties()) == p
  {
    ReadRunAppend(StyleElements(p), FontElements(p), DefaultRunProperties());
    ReadStyleElements(p);
    ReadFontElements(p, ReadRunElements(StyleElements(p), DefaultRunProperties()));
  }

  /** No elements exactly when no property is set. */
  lemma ParagraphElementsEmpty(p: ParagraphProperties)
    ensures |ParagraphElements(p)| == 0 <==> p == DefaultParagraphProperties()
  {
    ParagraphPropertiesRoundTrip(p);
  }

  lemma RunElementsEmpty(p: RunProperties)
    ensures |RunElements(p)| == 0 <==> p == DefaultRunProperties()
  {
    RunPropertiesRoundTrip(p);
  }

  // ---------------------------------------------------------------------
  // Runs, paragraphs, the document part
  // ---------------------------------------------------------------------

  /** The `<w:t>` element of a run: written only for non-empty text, and its
      content reads back as the text. */
  function TextElement(text: string): (r: string)
    ensures r == "" <==> text == ""
    ensures r != "" ==> StartsWith(r, "<w:t>") && EndsWith(r, "</w:t>") && |r| >= 11
                        && UnescapeXml(r[5..|r| - 6]) == text
  {
    if text == "" then ""
    else
      var inner := EscapeXmlText(text);
      var r := "<w:t>" + inner + "</w:t>";
      assert r[5..|r| - 6] == inner;
      EscapeXmlTextRoundTrip(text);
      r
  }

  /** `serialize_run`: properties, then the text element. */
  function SerializeRun(run: Run): (r: string)
    ensures StartsWith(r, "<w:r>") && EndsWith(r, "</w:r>")
  {
    var open := "<w:r>" + SerializeRunProperties(run.properties);
    var r := open + TextElement(run.text) + "</w:r>";
    assert r[..5] == open[..5];
    r
  }

  function SerializeRuns(runs: seq<Run>): string
  {
    if |runs| == 0 then "" else SerializeRun(runs[0]) + SerializeRuns(runs[1..])
  }

  /** `serialize_paragraph`. */
  function SerializeParagraph(para: Paragraph): (r: string)
    ensures StartsWith(r, "<w:p>") && EndsWith(r, "</w:p>")
  {
    "<w:p>" + SerializeParagraphProperties(para.properties) + SerializeRuns(para.runs) + "</w:p>"
  }

  function SerializeParagraphs(paras: seq<Paragraph>): string
  {
    if |paras| == 0 then "" else SerializeParagraph(paras[0]) + SerializeParagraphs(paras[1..])
  }

  const XmlDeclaration := "<?xml version=\"1.0\" encoding=\"UTF-8\" standalone=\"yes\"?>"
  const WordNamespace := "http://schemas.openxmlformats.org/wordprocessingml/2006/main"

  /** The data of the main document part (`serialize_document`). */
  function DocumentXml(paras: seq<Paragraph>): string
  {
    XmlDeclaration + "<w:document xmlns:w=\"" + WordNamespace + "\">" + "<w:body>"
    + SerializeParagraphs(paras) + "</w:body>" + "</w:document>"
  }

  // ---------------------------------------------------------------------
  // Styles
  // ---------------------------------------------------------------------

  datatype Style = Style(
    id: string,
    name: Option<string>,
    styleType: string,
    basedOn: Option<string>,
    paragraphProperties: ParagraphProperties,
    runProperties: RunProperties,
    isDefault: bool)

  const StyleIdPrefix := "<w:style w:styleId=\""
  const TypeAttribute := " w:type=\""
  const DefaultMarker := " w:default=\"1\""

  /** A style's opening tag, followed by `tail`. */
  function StyleHead(id: string, styleType: string, marker: string, tail: string): string
  {
    StyleIdPrefix + (id + ("\"" + (TypeAttribute + (styleType + ("\"" + (marker + (">" + tail)))))))
  }

  function OptionalElement(tag: string, v: Option<string>): (r: string)
    ensures |r| == 0 || r[0] == '<'
  {
    if v.Some? then "<" + tag + Attribute("w:val", EscapeXmlAttr(v.value)) + "/>" else ""
  }

  /** Everything after the opening tag; it starts with markup. */
  function StyleContent(st: Style): (r: string)
    ensures |r| > 0 && r[0] == '<'
  {
    var name := OptionalElement("w:name", st.name);
    var basedOn := OptionalElement("w:basedOn", st.basedOn);
    var ppr := SerializeParagraphProperties(st.paragraphProperties);
    var rpr := SerializeRunProperties(st.runProperties);
    var r := name + basedOn + ppr + rpr + "</w:style>";
    assert r[0] == (if |name| > 0 then name[0] else if |basedOn| > 0 then basedOn[0]
                    else if |ppr| > 0 then ppr[0] else if |rpr| > 0 then rpr[0] else '<');
    r
  }

  /** `serialize_style`. */
  function SerializeStyle(st: Style): string
  {
    StyleHead(EscapeXmlAttr(st.id), EscapeXmlAttr(st.styleType), if st.isDefault then DefaultMarker else "",
              StyleContent(st))
  }

  function SerializeStyleList(styles: seq<Style>): string
  {
    if |styles| == 0 then "" else SerializeStyle(styles[0]) + SerializeStyleList(styles[1..])
  }

  /** The lines of the built-in Normal, Heading 1 and Heading 2 styles
      after the opening tag of Normal, with the whitespace the Rust code writes. */
  const DefaultStylesLines: seq<string> := [
    "            <w:name w:val=\"Normal\"/>",
    "            <w:rPr>",
    "                <w:sz w:val=\"22\"/>",
    "                <w:lang w:val=\"en-US\"/>",
    "            </w:rPr>",
    "        </w:style>",
    "        <w:style w:styleId=\"Heading1\" w:type=\"paragraph\">",
    "            <w:name w:val=\"Heading 1\"/>",
    "            <w:basedOn w:val=\"Normal\"/>",
    "            <w:pPr>",
    "                <w:spacing w:before=\"240\" w:after=\"60\"/>",
    "            </w:pPr>",
    "            <w:rPr>",
    "                <w:b w:val=\"1\"/>",
    "                <w:sz w:val=\"32\"/>",
    "            </w:rPr>",
    "        </w:style>",
    "        <w:style w:styleId=\"Heading2\" w:type=\"paragraph\">",
    "            <w:name w:val=\"Heading 2\"/>",
    "            <w:basedOn w:val=\"Heading1\"/>",
    "            <w:pPr>",
    "                <w:spacing w:before=\"200\" w:after=\"40\"/>",
    "            </w:pPr>",
    "            <w:rPr>",
    "                <w:b w:val=\"1\"/>",
    "                <w:sz w:val=\"26\"/>",
    "            </w:rPr>",
    "        </w:style>"]

  function JoinLines(ls: seq<string>): string
  {
    if |ls| == 0 then "" else if |ls| == 1 then ls[0] else ls[0] + "\n" + JoinLines(ls[1..])
  }
  const DefaultStyles := StyleHead("Normal", "paragraph", DefaultMarker, "\n" + JoinLines(DefaultStylesLines))

  const StylesOpenTag := "<w:styles xmlns:w=\"" + WordNamespace + "\">"

  /** The styles part around the given style elements. */
  function StylesDocument(body: string): (r: string)
    ensures StartsWith(r, XmlDeclaration + StylesOpenTag) && EndsWith(r, "</w:styles>")
  {
    AffixesOf(XmlDeclaration + StylesOpenTag, body, "</w:styles>");
    XmlDeclaration + StylesOpenTag + body + "</w:styles>"
  }

  lemma StylesDocumentInjective(u: string, v: string)
    requires StylesDocument(u) == StylesDocument(v)
    ensures u == v
  {
    var head := XmlDeclaration + StylesOpenTag;
    assert StylesDocument(u) == head + (u + "</w:styles>");
    assert StylesDocument(v) == head + (v + "</w:styles>");
    DropPrefix(head, u + "</w:styles>", v + "</w:styles>");
    DropSuffix(u, v, "</w:styles>");
  }

  /** `serialize_styles`: the styles in the map's iteration order, or the
      built-in ones when there are none. */
  function StylesXml(styles: seq<Style>): (r: string)
    ensures StartsWith(r, XmlDeclaration + StylesOpenTag) && EndsWith(r, "</w:styles>")
  {
    StylesDocument(if |styles| == 0 then DefaultStyles else SerializeStyleList(styles))
  }

  lemma FirstQuote(a: string, x: string)
    requires '"' !in a
    ensures (a + ("\"" + x))[|a|] == '"'
    ensures forall i :: 0 <= i < |a| ==> (a + ("\"" + x))[i] != '"'
  {
    forall i | 0 <= i < |a|
      ensures (a + ("\"" + x))[i] != '"'
    {
      assert (a + ("\"" + x))[i] == a[i];
    }
  }

  /** Text without '"' followed by a '"' can be split at that quote in one
      way only. */
  lemma QuoteSplit(a: string, x: string, b: string, y: string)
    requires '"' !in a && '"' !in b
    requires a + ("\"" + x) == b + ("\"" + y)
    ensures a == b && x == y
  {
    FirstQuote(a, x);
    FirstQuote(b, y);
    var s := a + ("\"" + x);
    assert |a| == |b|;
    assert s[..|a|] == a;
    assert (b + ("\"" + y))[..|b|] == b;
    assert s[|a| + 1..] == x;
    assert (b + ("\"" + y))[|b| + 1..] == y;
  }

  lemma AffixesOf(p: string, u: string, q: string)
    ensures StartsWith(p + u + q, p) && EndsWith(p + u + q, q)
  {
    assert (p + u + q)[..|p|] == p;
    assert (p + u + q)[|p + u|..] == q;
  }

  lemma DropSuffix(u: string, v: string, q: string)
    requires u + q == v + q
    ensures u == v
  {
    assert |u| == |v|;
    assert u == (u + q)[..|u|];
    assert v == (v + q)[..|v|];
  }

  lemma DropPrefix(p: string, u: string, v: string)
    requires p + u == p + v
    ensures u == v
  {
    assert u == (p + u)[|p|..];
    assert v == (p + v)[|p|..];
  }

  lemma StyleHeadAppend(id: string, styleType: string, marker: string, tail: string, more: string)
    ensures StyleHead(id, styleType, marker, tail) + more == StyleHead(id, styleType, marker, tail + more)
  {
  }

  /** The opening tag determines the id, the type and the marker: two heads
      agree only when these do. */
  lemma StyleHeadSplit(a: string, t: string, d: string, x: string, b: string, u: string, e: string, y: string)
    requires '"' !in a && '"' !in b && '"' !in t && '"' !in u
    requires StyleHead(a, t, d, x) == StyleHead(b, u, e, y)
    ensures a == b && t == u && d + (">" + x) == e + (">" + y)
  {
    DropPrefix(StyleIdPrefix, a + ("\"" + (TypeAttribute + (t + ("\"" + (d + (">" + x)))))),
                              b + ("\"" + (TypeAttribute + (u + ("\"" + (e + (">" + y)))))));
    QuoteSplit(a, TypeAttribute + (t + ("\"" + (d + (">" + x)))), b, TypeAttribute + (u + ("\"" + (e + (">" + y)))));
    DropPrefix(TypeAttribute, t + ("\"" + (d + (">" + x))), u + ("\"" + (e + (">" + y))));
    QuoteSplit(t, d + (">" + x), u, e + (">" + y));
  }

  /** After the id and type, a style's tag differs from the built-in
      Normal tag followed by a line break. */
  lemma MarkerDiffers(d: string, x: string, y: string)
    requires d == "" || d == DefaultMarker
    requires |x| > 0 && x[0] == '<'
    ensures d + (">" + x) != DefaultMarker + (">" + ("\n" + y))
  {
    if d == "" {
      assert (d + (">" + x))[0] == '>';
      assert (DefaultMarker + (">" + ("\n" + y)))[0] == ' ';
    } else {
      assert (d + (">" + x))[|DefaultMarker| + 1] == '<';
      assert (DefaultMarker + (">" + ("\n" + y)))[|DefaultMarker| + 1] == '\n';
    }
  }

  /** A style's serialization differs from the built-in block, whose opening
      tag is followed by a line break. */
  lemma StyleIsNotDefaultBlock(st: Style, rest: string, y: string)
    ensures SerializeStyle(st) + rest != StyleHead("Normal", "paragraph", DefaultMarker, "\n" + y)
  {
    var a := EscapeXmlAttr(st.id);
    var t := EscapeXmlAttr(st.styleType);
    var d := if st.isDefault then DefaultMarker else "";
    var x := StyleContent(st) + rest;
    StyleHeadAppend(a, t, d, StyleContent(st), rest);
    MarkerDiffers(d, x, y);
    if StyleHead(a, t, d, x) == StyleHead("Normal", "paragraph", DefaultMarker, "\n" + y) {
      StyleHeadSplit(a, t, d, x, "Normal", "paragraph", DefaultMarker, "\n" + y);
    }
  }

  /** The styles part falls back to the built-in styles exactly when the
      style map is empty: a non-empty map never yields the fallback part. */
  lemma StylesFallbackIff(styles: seq<Style>)
    ensures StylesXml(styles) == StylesXml([]) <==> |styles| == 0
  {
    if |styles| > 0 && StylesXml(styles) == StylesXml([]) {
      StylesDocumentInjective(SerializeStyleList(styles), DefaultStyles);
      StyleIsNotDefaultBlock(styles[0], SerializeStyleList(styles[1..]), JoinLines(DefaultStylesLines));
    }
  }
}
