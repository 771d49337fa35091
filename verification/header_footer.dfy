/**
 * Headers and footers (`header_footer.rs`): page-number formats, the page
 * number field, field-code parsing, per-section configurations with the
 * first-page / odd-even / title-page choice, and the content region left
 * between header and footer.  Lengths are `f32` in the Rust code and `real`
 * here.
 */
module HeaderFooter {
  import opened Wrappers
  import opened TextUtil
  import Numbering
  import FootnoteEndnote

  // ---------------------------------------------------------------
  // Page-number formats
  // ---------------------------------------------------------------

  datatype PageNumberFormat = Arabic | RomanUpper | RomanLower | LetterUpper | LetterLower | Chinese

  /**
   * `format_letter_upper`: the letter loop on `n - 1`, where the
   * subtraction saturates, so 0 is written like 1.
   */
  function LetterUpperPage(n: nat): (r: string)
    ensures Numbering.IsUpperWord(r) && |r| >= 1
  {
    Numbering.LettersFromIsUpper(if n == 0 then 0 else n - 1);
    Numbering.LettersFrom(if n == 0 then 0 else n - 1)
  }

  /** From 1 on the page letters are the bijective base-26 numerals, read back by `LetterValue`; 0 shows as `A`. */
  lemma LetterUpperPageReadsBack(n: nat)
    ensures n >= 1 ==> LetterUpperPage(n) == Numbering.LetterUpper(n)
    ensures Numbering.LetterValue(LetterUpperPage(n)) == (if n == 0 then 1 else n)
  {
    Numbering.LetterRoundTrip(if n == 0 then 1 else n);
  }

  lemma LetterUpperPageExamples()
    ensures LetterUpperPage(0) == "A" && LetterUpperPage(1) == "A" && LetterUpperPage(26) == "Z"
    ensures LetterUpperPage(27) == "AA" && LetterUpperPage(28) == "AB"
  {
    Numbering.LetterExamples();
    Numbering.LetterWordRoundTrip("AB");
  }

  lemma LetterUpperPageLaterExamples()
    ensures LetterUpperPage(52) == "AZ" && LetterUpperPage(53) == "BA"
  {
    Numbering.LetterExamplesSecondRound();
  }

  const Wan: char := '万'
  const Yi: char := '亿'

  /** The myriad mark `format_chinese` pushes before the digit at position `units`. */
  function Myriad(units: nat): string
  {
    if units == 4 then [Wan] else if units == 8 then [Yi] else ""
  }

  /**
   * The digit loop of `format_chinese`, lowest digit first.  Unlike the
   * footnote formatter it APPENDS each digit and unit to the text built
   * so far, so the digits come out lowest first.
   */
  function ChinesePageLoop(n: nat, units: nat, acc: string): string
    decreases n
  {
    if n == 0 then acc
    else
      var d := n % 10;
      var acc' :=
        if d > 0 then acc + Myriad(units) + [FootnoteEndnote.ChineseDigits[d]] + FootnoteEndnote.ChineseUnits[units % 4]
        else if |acc| > 0 && acc[|acc| - 1] != FootnoteEndnote.Zero && units % 4 != 0 then acc + [FootnoteEndnote.Zero]
        else acc;
      ChinesePageLoop(n / 10, units + 1, acc')
  }

  /**
   * The trailing `零` removal.  Its `len() > 1` counts bytes and
   * `零` alone is three bytes, so every trailing `零` goes.
   */
  function TrimTrailingZeros(s: string): (r: string)
    ensures |r| <= |s| && r == s[..|r|]
    ensures |r| > 0 ==> r[|r| - 1] != FootnoteEndnote.Zero
  {
    if |s| > 0 && s[|s| - 1] == FootnoteEndnote.Zero then TrimTrailingZeros(s[..|s| - 1]) else s
  }

  /** `format_chinese` as written. */
  function ChinesePageAsWritten(n: nat): string
  {
    if n == 0 then [FootnoteEndnote.Zero] else TrimTrailingZeros(ChinesePageLoop(n, 0, ""))
  }

  /** Single digits and round tens come out right ... */
  lemma ChinesePageAsWrittenDigits()
    ensures ChinesePageAsWritten(0) == "零" && ChinesePageAsWritten(3) == "三"
  {
    ChineseLoopStep(3, 0, "", "三");
  }

  lemma ChinesePageAsWrittenRoundTens()
    ensures ChinesePageAsWritten(20) == "二十"
  {
    ChineseLoopLeadingZero(20, 0);
    ChineseLoopStep(2, 1, "", "二十");
  }

  lemma ChinesePageAsWrittenHundred()
    ensures ChinesePageAsWritten(100) == "一百"
  {
    ChineseLoopLeadingZero(100, 0);
    ChineseLoopLeadingZero(10, 1);
    ChineseLoopStep(1, 2, "", "一百");
  }

  /** ... but other numbers are written lowest digit first: 21 becomes `一二十`. */
  lemma ChinesePageAsWrittenReversed()
    ensures ChinesePageAsWritten(21) == "一二十"
  {
    ChineseLoopStep(21, 0, "", "一");
    ChineseLoopStep(2, 1, "一", "一二十");
  }

  /** One step of the loop for a non-zero digit. */
  lemma ChineseLoopStep(n: nat, units: nat, acc: string, acc': string)
    requires 0 < n && n % 10 > 0 && units < 4
    requires acc' == acc + [FootnoteEndnote.ChineseDigits[n % 10]] + FootnoteEndnote.ChineseUnits[units]
    ensures ChinesePageLoop(n, units, acc) == ChinesePageLoop(n / 10, units + 1, acc')
  {
    assert Myriad(units) == "" && units % 4 == units;
    assert acc + Myriad(units) == acc;
  }

  /** One step of the loop for a zero digit before any text is built. */
  lemma ChineseLoopLeadingZero(n: nat, units: nat)
    requires 0 < n && n % 10 == 0
    ensures ChinesePageLoop(n, units, "") == ChinesePageLoop(n / 10, units + 1, "")
  {
  }

  /** 10 and 11 carry the leading `一` the format test does not expect. */
  lemma ChinesePageAsWrittenTeens()
    ensures ChinesePageAsWritten(10) == "一十" && ChinesePageAsWritten(11) == "一一十"
  {
    ChineseLoopLeadingZero(10, 0);
    ChineseLoopStep(1, 1, "", "一十");
    ChineseLoopStep(11, 0, "", "一");
    ChineseLoopStep(1, 1, "一", "一一十");
  }

  /** A group of four digits after a higher unit: a `零` bridges a missing thousands digit. */
  function ChineseGroupTail(lo: nat): string
    requires lo < 10000
  {
    if lo == 0 then "" else if lo < 1000 then [FootnoteEndnote.Zero] + FootnoteEndnote.ChineseAsWritten(lo)
    else FootnoteEndnote.ChineseAsWritten(lo)
  }

  /**
   * Chinese page numbers highest digit first, as the tests expect: the
   * footnote numeral below 10000, then groups of four digits marked
   * `万` and `亿`.
   */
  function ChinesePage(n: nat): string
    decreases n
  {
    if n < 10000 then FootnoteEndnote.ChineseNumeral(n)
    else if n < 100000000 then FootnoteEndnote.ChineseNumeral(n / 10000) + [Wan] + ChineseGroupTail(n % 10000)
    else
      var lo := n % 100000000;
      ChinesePage(n / 100000000) + [Yi] +
      (if lo == 0 then ""
       else if lo < 10000 then [FootnoteEndnote.Zero] + FootnoteEndnote.ChineseAsWritten(lo)
       else (if lo < 10000000 then [FootnoteEndnote.Zero] else "")
            + FootnoteEndnote.ChineseAsWritten(lo / 10000) + [Wan] + ChineseGroupTail(lo % 10000))
  }

  /** The page numbers of the format test, written highest digit first. */
  lemma ChinesePageExamples()
    ensures ChinesePage(0) == "零" && ChinesePage(1) == "一" && ChinesePage(10) == "十"
    ensures ChinesePage(11) == "十一" && ChinesePage(20) == "二十" && ChinesePage(21) == "二十一"
    ensures ChinesePage(100) == "一百"
  {
    FootnoteEndnote.ChineseNumeralExamples();
    FootnoteEndnote.ChineseNumeralHundreds();
    assert FootnoteEndnote.ChineseNumeral(0) == "零";
  }

  lemma ChinesePageMyriads()
    ensures ChinesePage(10000) == "一万" && ChinesePage(100000) == "十万"
  {
    FootnoteEndnote.ChineseNumeralExamples();
  }

  /**
   * `PageNumberFormat::format_number`, with the Chinese numeral as
   * `format_chinese` writes it (low digit first). The decimal, Roman and
   * letter numbers read back to the page number (letters from 1 on).
   */
  function FormatNumber(fmt: PageNumberFormat, n: nat): (r: string)
    ensures fmt == Arabic ==> (forall i :: 0 <= i < |r| ==> IsDigit(r[i])) && DigitsValue(r) == n
    ensures fmt == RomanUpper ==> r == Numbering.StandardRoman(n)
    ensures fmt == RomanLower ==> ToUpper(r) == Numbering.StandardRoman(n)
    ensures fmt == LetterUpper ==> Numbering.IsUpperWord(r) && Numbering.LetterValue(r) == (if n == 0 then 1 else n)
    ensures fmt == Chinese && n == 0 ==> r == [FootnoteEndnote.Zero]
  {
    match fmt
    case Arabic => NatToStringRoundTrip(n); NatToString(n)
    case RomanUpper => Numbering.RomanUpperIsStandard(n); Numbering.RomanUpper(n)
    case RomanLower => RomanLowerReadsBack(n); Numbering.RomanLower(n)
    case LetterUpper => LetterUpperPageReadsBack(n); LetterUpperPage(n)
    case LetterLower => ToLower(LetterUpperPage(n))
    case Chinese => ChinesePageAsWritten(n)
  }

  /** Lower-case Roman upcases to the standard numeral. */
  lemma RomanLowerReadsBack(n: nat)
    ensures ToUpper(Numbering.RomanLower(n)) == Numbering.StandardRoman(n)
  {
    Numbering.RomanUpperIsStandard(n);
    Numbering.RomanLowerUpcases(n);
  }

  // ---------------------------------------------------------------
  // Page-number field
  // ---------------------------------------------------------------

  /** A `u32` value. */
  type U32 = x: nat | x < 0x1_0000_0000

  datatype PageNumberField = PageNumberField(format: PageNumberFormat, startNumber: U32)

  /**
   * `page_index + start_number - section_start_page` overflows or goes
   * below zero in `u32`: a debug build panics there.
   */
  predicate DisplayOverflows(f: PageNumberField, pageIndex: U32, sectionStartPage: U32)
  {
    pageIndex + f.startNumber >= 0x1_0000_0000 || pageIndex + f.startNumber < sectionStartPage
  }

  /**
   * `get_display_number` in a debug build: the page index shifted by the
   * start number less the section's start page, and None where the `u32`
   * arithmetic panics.
   */
  function DisplayNumber(f: PageNumberField, pageIndex: U32, sectionStartPage: U32): (r: Option<U32>)
    ensures r.None? <==> DisplayOverflows(f, pageIndex, sectionStartPage)
    ensures r.Some? ==> r.value + sectionStartPage == pageIndex + f.startNumber
  {
    if DisplayOverflows(f, pageIndex, sectionStartPage) then None
    else Some(pageIndex + f.startNumber - sectionStartPage)
  }

  /** `get_display_number` in a release build: the same sum, wrapped modulo 2^32. */
  function DisplayNumberWrapping(f: PageNumberField, pageIndex: U32, sectionStartPage: U32): (r: U32)
    ensures !DisplayOverflows(f, pageIndex, sectionStartPage) ==> r + sectionStartPage == pageIndex + f.startNumber
    ensures pageIndex + f.startNumber < sectionStartPage ==> r + sectionStartPage == pageIndex + f.startNumber + 0x1_0000_0000
  {
    (pageIndex + f.startNumber - sectionStartPage) % 0x1_0000_0000
  }

  /** Where the debug build gives a number, the release build gives the same one. */
  lemma DisplayNumberBuildsAgree(f: PageNumberField, pageIndex: U32, sectionStartPage: U32)
    ensures DisplayNumber(f, pageIndex, sectionStartPage).Some? ==>
              DisplayNumber(f, pageIndex, sectionStartPage).value == DisplayNumberWrapping(f, pageIndex, sectionStartPage)
  {
  }

  /** The page at the section's start page shows the start number, and each next page shows one more. */
  lemma DisplayNumberCounts(f: PageNumberField, pageIndex: U32, sectionStartPage: U32)
    ensures sectionStartPage + f.startNumber < 0x1_0000_0000 ==>
              DisplayNumber(f, sectionStartPage, sectionStartPage) == Some(f.startNumber)
    ensures pageIndex + 1 < 0x1_0000_0000 && pageIndex + 1 + f.startNumber < 0x1_0000_0000 &&
            DisplayNumber(f, pageIndex, sectionStartPage).Some? ==>
              DisplayNumber(f, pageIndex + 1, sectionStartPage) == Some(DisplayNumber(f, pageIndex, sectionStartPage).value + 1)
  {
  }

  /**
   * The Rust unit test calls `get_display_number(3, 5)` with start number
   * 1: the subtraction underflows, so a debug build panics and a release
   * build gives 2^32 - 1. From page 0 of a section starting at 1 the
   * number is 0.
   */
  lemma DisplayNumberUnderflowExample()
    ensures DisplayNumber(PageNumberField(Arabic, 1), 3, 5).None?
    ensures DisplayNumberWrapping(PageNumberField(Arabic, 1), 3, 5) == 0xFFFF_FFFF
    ensures DisplayNumber(PageNumberField(Arabic, 1), 0, 1) == Some(0)
  {
  }

  /**
   * `get_formatted_number`: the display number in the field's format,
   * and None where computing the display number panics; decimal and
   * Roman read back to it.
   */
  function FormattedNumber(f: PageNumberField, pageIndex: U32, sectionStartPage: U32): (r: Option<string>)
    ensures r.None? <==> DisplayOverflows(f, pageIndex, sectionStartPage)
    ensures r.Some? && f.format == Arabic ==>
      (forall i :: 0 <= i < |r.value| ==> IsDigit(r.value[i])) &&
      DigitsValue(r.value) + sectionStartPage == pageIndex + f.startNumber
    ensures r.Some? && f.format == RomanUpper ==>
      r.value == Numbering.StandardRoman(pageIndex + f.startNumber - sectionStartPage)
  {
    match DisplayNumber(f, pageIndex, sectionStartPage)
    case None => None
    case Some(d) => Some(FormatNumber(f.format, d))
  }

  lemma FormattedNumberExample()
    ensures FormattedNumber(PageNumberField(RomanUpper, 1), 3, 1) == Some("III")
    ensures FormattedNumber(PageNumberField(RomanUpper, 1), 4, 1) == Some("IV")
    ensures FormattedNumber(PageNumberField(Arabic, 1), 0, 1) == Some("0")
    ensures FormattedNumber(PageNumberField(Arabic, 1), 3, 5).None?
  {
    assert DisplayNumber(PageNumberField(RomanUpper, 1), 3, 1) == Some(3);
    assert DisplayNumber(PageNumberField(RomanUpper, 1), 4, 1) == Some(4);
    Numbering.RomanUpperIsStandard(3);
    Numbering.RomanExamples();
    assert FormatNumber(RomanUpper, 3) == "III";
    assert FormatNumber(RomanUpper, 4) == "IV";
  }

  // ---------------------------------------------------------------
  // Field codes
  // ---------------------------------------------------------------

  datatype DateTimeField = DateTimeField(format: string, isUpdateable: bool)

  datatype FieldCode =
    | PageNumber(page: PageNumberField)
    | DateTime(dateTime: DateTimeField)
    | StyleRef(styleName: string)
    | DocProperty(propertyName: string)

  /** The format a `PAGE` code asks for: case-sensitive searches for `Roman`, `Letter`, `Chinese` and `UPPER`. */
  function PageFormatAsWritten(code: string): PageNumberFormat
  {
    if Contains(code, "Roman") then (if Contains(code, "UPPER") then RomanUpper else RomanLower)
    else if Contains(code, "Letter") then (if Contains(code, "UPPER") then LetterUpper else LetterLower)
    else if Contains(code, "Chinese") then Chinese
    else Arabic
  }

  /** The upper-case switch `RomanUpper` does not contain `UPPER`, so it selects lower-case numerals. */
  lemma RomanUpperSwitchAsWritten()
    ensures PageFormatAsWritten("PAGE \\* RomanUpper") == RomanLower
  {
    OccursContains("PAGE \\* RomanUpper", "Roman", 8);
    NotContains("PAGE \\* RomanUpper", "UPPER", 1, "AGE \\* RomanUpper");
  }

  lemma ArabicSwitchAsWritten()
    ensures PageFormatAsWritten("PAGE \\* Arabic") == Arabic
  {
    ArabicNoRoman();
    ArabicNoLetter();
    ArabicNoChinese();
  }

  /** `PAGE \\* Arabic` names none of the other formats. */
  lemma ArabicNoRoman()
    ensures !Contains("PAGE \\* Arabic", "Roman")
  {
    NotContains("PAGE \\* Arabic", "Roman", 0, "PAGE \\* Arabic");
  }

  lemma ArabicNoLetter()
    ensures !Contains("PAGE \\* Arabic", "Letter")
  {
    NotContains("PAGE \\* Arabic", "Letter", 0, "PAGE \\* Arabic");
  }

  lemma ArabicNoChinese()
    ensures !Contains("PAGE \\* Arabic", "Chinese")
  {
    NotContains("PAGE \\* Arabic", "Chinese", 0, "PAGE \\* Arabic");
  }

  /** Upper case asked for by either `UPPER` or `Upper`. */
  predicate AsksUpper(code: string)
  {
    Contains(code, "UPPER") || Contains(code, "Upper")
  }

  /** The page format with the `Upper` spelling recognised as well. */
  function PageFormat(code: string): (r: PageNumberFormat)
    ensures r == RomanUpper <==> Contains(code, "Roman") && AsksUpper(code)
    ensures r == LetterUpper <==> !Contains(code, "Roman") && Contains(code, "Letter") && AsksUpper(code)
  {
    if Contains(code, "Roman") then (if AsksUpper(code) then RomanUpper else RomanLower)
    else if Contains(code, "Letter") then (if AsksUpper(code) then LetterUpper else LetterLower)
    else if Contains(code, "Chinese") then Chinese
    else Arabic
  }

  /** The two agree except where only `Upper` is spelled. */
  lemma PageFormatAgrees(code: string)
    requires !Contains(code, "Upper") || Contains(code, "UPPER")
    ensures PageFormat(code) == PageFormatAsWritten(code)
  {
  }

  lemma RomanUpperSwitch()
    ensures PageFormat("PAGE \\* RomanUpper") == RomanUpper
  {
    OccursContains("PAGE \\* RomanUpper", "Roman", 8);
    OccursContains("PAGE \\* RomanUpper", "Upper", 13);
  }

  lemma RomanLowerSwitch()
    ensures PageFormat("PAGE \\* Roman") == RomanLower
  {
    OccursContains("PAGE \\* Roman", "Roman", 8);
    RomanNoUpper();
  }

  lemma RomanNoUpper()
    ensures !AsksUpper("PAGE \\* Roman")
  {
    NotContains("PAGE \\* Roman", "UPPER", 0, "PAGE \\* Roman");
    NotContains("PAGE \\* Roman", "Upper", 0, "PAGE \\* Roman");
  }

  lemma LetterUpperSwitch()
    ensures PageFormat("PAGE \\* LetterUpper") == LetterUpper
  {
    LetterUpperSearches();
    assert "PAGE \\* LetterUpper"[14..19] == "Upper";
    OccursContains("PAGE \\* LetterUpper", "Upper", 14);
  }

  lemma LetterUpperSearches()
    ensures !Contains("PAGE \\* LetterUpper", "Roman") && Contains("PAGE \\* LetterUpper", "Letter")
  {
    LetterUpperNotRoman();
    LetterUpperHasLetter();
  }

  lemma LetterUpperNotRoman()
    ensures !Contains("PAGE \\* LetterUpper", "Roman")
  {
    NotContains("PAGE \\* LetterUpper", "Roman", 0, "PAGE \\* LetterUpper");
  }

  lemma LetterUpperHasLetter()
    ensures Contains("PAGE \\* LetterUpper", "Letter")
  {
    assert "PAGE \\* LetterUpper"[8..14] == "Letter";
    OccursContains("PAGE \\* LetterUpper", "Letter", 8);
  }

  /** The text after a keyword: the keyword stripped (as often as it repeats), then trimmed. */
  function AfterKeyword(code: string, keyword: string): string
    requires |keyword| > 0
  {
    Trim(TrimStartMatches(code, keyword))
  }

  /** A `STYLEREF` or `DOCPROPERTY` argument: quotes removed, then trimmed. */
  function Unquoted(s: string): (r: string)
    ensures '"' !in r
  {
    TrimKeepsAbsent(RemoveChar(s, '"'), '"');
    Trim(RemoveChar(s, '"'))
  }

  /** The date format as `parse` extracts it: `@` and quotes removed, so the backslash of the `\@` switch stays. */
  function DateFormatAsWritten(code: string): (r: string)
    ensures '"' !in r && '@' !in r
  {
    var f := RemoveChar(RemoveChar(AfterKeyword(code, "DATE"), '@'), '"');
    RemoveCharKeepsAbsent(RemoveChar(AfterKeyword(code, "DATE"), '@'), '"', '@');
    TrimKeepsAbsent(f, '"');
    TrimKeepsAbsent(f, '@');
    Trim(f)
  }

  /** A `DATE` code with a quoted picture, as the format test writes it. */
  function DateCode(picture: string): string
  {
    "DATE \\@ \"" + picture + "\""
  }

  /** A picture without switch characters or surrounding blanks, such as `yyyy-MM-dd`. */
  predicate PlainPicture(picture: string)
  {
    |picture| > 0 && '\\' !in picture && '@' !in picture && '"' !in picture
    && !IsWhitespace(picture[0]) && !IsWhitespace(picture[|picture| - 1])
  }

  /** The text after `DATE`: the switch with its quoted picture. */
  lemma DateCodeArgument(picture: string)
    requires PlainPicture(picture)
    ensures AfterKeyword(DateCode(picture), "DATE") == "\\@ \"" + picture + "\""
  {
    var arg := "\\@ \"" + picture + "\"";
    assert DateCode(picture) == "DATE" + ([' '] + arg);
    TrimStartMatchesOnce("DATE", [' '] + arg);
    TrimOneBlank(' ', arg);
  }

  /** Removing the quotes around a picture leaves the picture. */
  lemma UnquotePicture(prefix: string, picture: string)
    requires '"' !in prefix && '"' !in picture
    ensures RemoveChar(prefix + "\"" + picture + "\"", '"') == prefix + picture
  {
    assert prefix + "\"" + picture + "\"" == prefix + (['"'] + picture + ['"']);
    RemoveCharAppend(prefix, ['"'] + picture + ['"'], '"');
    RemoveCharAbsent(prefix, '"');
    RemoveCharQuoted('"', picture);
  }

  /** Dropping the backslash of the switch. */
  lemma DropBackslash(picture: string)
    requires PlainPicture(picture)
    ensures RemoveChar("\\@ \"" + picture + "\"", '\\') == "@ \"" + picture + "\""
  {
    assert "\\@ \"" + picture + "\"" == ['\\'] + ("@ \"" + picture + "\"");
    RemoveCharLeading('\\', "@ \"" + picture + "\"");
  }

  /** Dropping the `@` of the switch. */
  lemma DropAt(picture: string)
    requires PlainPicture(picture)
    ensures RemoveChar("@ \"" + picture + "\"", '@') == " \"" + picture + "\""
  {
    assert "@ \"" + picture + "\"" == ['@'] + (" \"" + picture + "\"");
    RemoveCharLeading('@', " \"" + picture + "\"");
  }

  /** Dropping the `@` of the switch but not its backslash. */
  lemma DropAtAfterBackslash(picture: string)
    requires PlainPicture(picture)
    ensures RemoveChar("\\@ \"" + picture + "\"", '@') == "\\ \"" + picture + "\""
  {
    assert "\\@ \"" + picture + "\"" == "\\" + ("@ \"" + picture + "\"");
    RemoveCharAppend("\\", "@ \"" + picture + "\"", '@');
    RemoveCharAbsent("\\", '@');
    DropAt(picture);
    assert "\\" + (" \"" + picture + "\"") == "\\ \"" + picture + "\"";
  }

  /** `DateFormatAsWritten` step by step. */
  lemma DateFormatAsWrittenSteps(code: string, noAt: string, bare: string)
    requires RemoveChar(AfterKeyword(code, "DATE"), '@') == noAt
    requires RemoveChar(noAt, '"') == bare && Trim(bare) == bare
    ensures DateFormatAsWritten(code) == bare
  {
  }

  /** The `DATE` argument with its `@` dropped and its backslash kept. */
  lemma DateCodeWithoutAt(picture: string)
    requires PlainPicture(picture)
    ensures RemoveChar(AfterKeyword(DateCode(picture), "DATE"), '@') == "\\ \"" + picture + "\""
  {
    DateCodeArgument(picture);
    DropAtAfterBackslash(picture);
  }

  /** Unquoting the picture after the kept backslash. */
  lemma BackslashPictureUnquoted(picture: string)
    requires PlainPicture(picture)
    ensures RemoveChar("\\ \"" + picture + "\"", '"') == "\\ " + picture
  {
    assert "\\ \"" + picture + "\"" == "\\ " + "\"" + picture + "\"";
    UnquotePicture("\\ ", picture);
  }

  /** Every quoted `DATE` picture comes back with the backslash of `\\@` in front. */
  lemma DateFormatAsWrittenKeepsBackslash(picture: string)
    requires PlainPicture(picture)
    ensures DateFormatAsWritten(DateCode(picture)) == "\\ " + picture
  {
    DateCodeWithoutAt(picture);
    BackslashPictureUnquoted(picture);
    TrimNoOp("\\ " + picture);
    DateFormatAsWrittenSteps(DateCode(picture), "\\ \"" + picture + "\"", "\\ " + picture);
  }

  /** The date format with the whole `\@` switch removed. */
  function DateFormat(code: string): (r: string)
    ensures '"' !in r && '@' !in r && '\\' !in r
  {
    var f := RemoveChar(RemoveChar(RemoveChar(AfterKeyword(code, "DATE"), '\\'), '@'), '"');
    RemoveCharKeepsAbsent(RemoveChar(AfterKeyword(code, "DATE"), '\\'), '@', '\\');
    RemoveCharKeepsAbsent(RemoveChar(RemoveChar(AfterKeyword(code, "DATE"), '\\'), '@'), '"', '\\');
    RemoveCharKeepsAbsent(RemoveChar(RemoveChar(AfterKeyword(code, "DATE"), '\\'), '@'), '"', '@');
    TrimKeepsAbsent(f, '"');
    TrimKeepsAbsent(f, '@');
    TrimKeepsAbsent(f, '\\');
    Trim(f)
  }

  /** `DateFormat` step by step. */
  lemma DateFormatSteps(code: string, noAt: string, spaced: string, bare: string)
    requires RemoveChar(RemoveChar(AfterKeyword(code, "DATE"), '\\'), '@') == noAt
    requires RemoveChar(noAt, '"') == spaced && Trim(spaced) == bare
    ensures DateFormat(code) == bare
  {
  }

  /** The `DATE` argument with its whole switch dropped. */
  lemma DateCodeWithoutSwitch(picture: string)
    requires PlainPicture(picture)
    ensures RemoveChar(RemoveChar(AfterKeyword(DateCode(picture), "DATE"), '\\'), '@') == " \"" + picture + "\""
  {
    DateCodeArgument(picture);
    DropBackslash(picture);
    DropAt(picture);
  }

  /** Unquoting the picture after the blank. */
  lemma SpacedPictureUnquoted(picture: string)
    requires PlainPicture(picture)
    ensures RemoveChar(" \"" + picture + "\"", '"') == [' '] + picture
  {
    assert " \"" + picture + "\"" == " " + "\"" + picture + "\"";
    UnquotePicture(" ", picture);
  }

  /** A quoted plain picture comes back as it is. */
  lemma DateFormatOfPicture(picture: string)
    requires PlainPicture(picture)
    ensures DateFormat(DateCode(picture)) == picture
  {
    DateCodeWithoutSwitch(picture);
    SpacedPictureUnquoted(picture);
    TrimOneBlank(' ', picture);
    DateFormatSteps(DateCode(picture), " \"" + picture + "\"", [' '] + picture, picture);
  }

  /** Without a backslash the two agree. */
  lemma DateFormatAgrees(code: string)
    requires '\\' !in code
    ensures DateFormat(code) == DateFormatAsWritten(code)
  {
    TrimStartMatchesKeepsAbsent(code, "DATE", '\\');
    TrimKeepsAbsent(TrimStartMatches(code, "DATE"), '\\');
    RemoveCharAbsent(AfterKeyword(code, "DATE"), '\\');
  }

  /**
   * `FieldCode::parse`. A code parses exactly when it starts with one of
   * the four keywords; the first keyword that matches decides the kind of
   * field, page fields start at 1 and ask for upper-case Roman only when
   * the code names "Roman" and "UPPER", and names and date formats come
   * without quotes.
   */
  function ParseField(code: string): (r: Option<FieldCode>)
    ensures r.Some? <==>
      StartsWith(code, "PAGE") || StartsWith(code, "DATE") || StartsWith(code, "STYLEREF") || StartsWith(code, "DOCPROPERTY")
    ensures r.Some? && r.value.PageNumber? ==>
      StartsWith(code, "PAGE") && r.value.page.startNumber == 1
      && (r.value.page.format == RomanUpper <==> Contains(code, "Roman") && Contains(code, "UPPER"))
    ensures r.Some? && r.value.DateTime? ==>
      StartsWith(code, "DATE") && !StartsWith(code, "PAGE") && r.value.dateTime.isUpdateable
      && '"' !in r.value.dateTime.format && '@' !in r.value.dateTime.format
    ensures r.Some? && r.value.StyleRef? ==> StartsWith(code, "STYLEREF") && '"' !in r.value.styleName
    ensures r.Some? && r.value.DocProperty? ==> StartsWith(code, "DOCPROPERTY") && '"' !in r.value.propertyName
  {
    if StartsWith(code, "PAGE") then Some(PageNumber(PageNumberField(PageFormatAsWritten(code), 1)))
    else if StartsWith(code, "DATE") then Some(DateTime(DateTimeField(DateFormatAsWritten(code), true)))
    else if StartsWith(code, "STYLEREF") then Some(StyleRef(Unquoted(AfterKeyword(code, "STYLEREF"))))
    else if StartsWith(code, "DOCPROPERTY") then Some(DocProperty(Unquoted(AfterKeyword(code, "DOCPROPERTY"))))
    else None
  }

  lemma ParsePageExample()
    ensures ParseField("PAGE \\* Arabic") == Some(PageNumber(PageNumberField(Arabic, 1)))
  {
    assert StartsWith("PAGE \\* Arabic", "PAGE") by {
      assert "PAGE \\* Arabic"[..4] == "PAGE";
    }
    ArabicSwitchAsWritten();
  }

  lemma ParseUnknownExample()
    ensures ParseField("HELLO") == None
  {
    var code := "HELLO";
    assert code[0] == 'H';
    assert !StartsWith(code, "PAGE") && !StartsWith(code, "DATE") by {
      assert code[..4][0] == 'H';
    }
    assert !StartsWith(code, "STYLEREF") && !StartsWith(code, "DOCPROPERTY") by {
      assert |code| < 8;
    }
  }

  /** A quoted `DATE` picture parses to an updateable date field whose format keeps the switch's backslash. */
  lemma ParseDateCode(picture: string)
    requires PlainPicture(picture)
    ensures ParseField(DateCode(picture)) == Some(DateTime(DateTimeField("\\ " + picture, true)))
  {
    var code := DateCode(picture);
    assert code[..4] == "DATE" && code[0] == 'D';
    assert !StartsWith(code, "PAGE") by { assert code[..4][0] != "PAGE"[0]; }
    DateFormatAsWrittenKeepsBackslash(picture);
  }

  /** A `STYLEREF` code naming a style in quotes. */
  function StyleRefCode(name: string): string
  {
    "STYLEREF \"" + name + "\""
  }

  /** A quoted style name parses to a style reference to that name. */
  lemma ParseStyleRefCode(name: string)
    requires |name| > 0 && '"' !in name && !IsWhitespace(name[0]) && !IsWhitespace(name[|name| - 1])
    ensures ParseField(StyleRefCode(name)) == Some(StyleRef(name))
  {
    StyleRefKeyword(name);
    StyleRefArgument(name);
    UnquoteName(name);
  }

  /** The code starts with `STYLEREF` and with neither earlier keyword. */
  lemma StyleRefKeyword(name: string)
    ensures StartsWith(StyleRefCode(name), "STYLEREF")
    ensures !StartsWith(StyleRefCode(name), "PAGE") && !StartsWith(StyleRefCode(name), "DATE")
  {
    var code := StyleRefCode(name);
    assert code[..8] == "STYLEREF";
    assert code[..4][0] == 'S';
  }

  /** After the keyword and the blank comes the quoted name. */
  lemma StyleRefArgument(name: string)
    requires |name| > 0
    ensures AfterKeyword(StyleRefCode(name), "STYLEREF") == "\"" + name + "\""
  {
    var arg := "\"" + name + "\"";
    assert StyleRefCode(name) == "STYLEREF" + ([' '] + arg);
    TrimStartMatchesOnce("STYLEREF", [' '] + arg);
    TrimOneBlank(' ', arg);
  }

  /** Unquoting a quoted name that needs no trimming gives the name. */
  lemma UnquoteName(name: string)
    requires |name| > 0 && '"' !in name && !IsWhitespace(name[0]) && !IsWhitespace(name[|name| - 1])
    ensures Unquoted("\"" + name + "\"") == name
  {
    UnquotePicture("", name);
    assert "" + "\"" + name + "\"" == "\"" + name + "\"";
    TrimNoOp(name);
  }

  // ---------------------------------------------------------------
  // Headers, footers and their sections
  // ---------------------------------------------------------------

  datatype HeaderFooterType = Primary | FirstPage | EvenPage | TitlePage

  datatype ImageInfo = ImageInfo(path: string, width: real, height: real, altText: Option<string>)

  datatype Content = Text(text: string) | Image(image: ImageInfo) | Fields(fields: seq<FieldCode>)

  datatype Header = Header(headerType: HeaderFooterType, content: Content, margin: real, height: real, linkedToPrevious: bool)

  datatype Footer = Footer(footerType: HeaderFooterType, content: Content, margin: real, height: real,
                           linkedToPrevious: bool, pageNumberFormat: Option<PageNumberFormat>)

  /** `Header::new`. */
  const NewHeader := Header(Primary, Text(""), 0.0, 0.0, false)

  /** `Footer::new`. */
  const NewFooter := Footer(Primary, Text(""), 0.0, 0.0, false, None)

  /** `Footer::new_with_page_number`: a primary footer holding one page-number field that starts at 1. */
  function FooterWithPageNumber(fmt: PageNumberFormat): (r: Footer)
    ensures r.footerType == Primary && r.pageNumberFormat == Some(fmt)
    ensures r.content == Fields([PageNumber(PageNumberField(fmt, 1))])
  {
    Footer(Primary, Fields([PageNumber(PageNumberField(fmt, 1))]), 0.0, 0.0, false, Some(fmt))
  }

  datatype Config = Config(header: Option<Header>, footer: Option<Footer>,
                           differentFirstPage: bool, differentOddEven: bool, titlePage: bool)

  const DefaultConfig := Config(None, None, false, false, false)

  /**
   * Which header or footer type a page of this section shows: none on a
   * title page, then first page, then even page (page indices count from
   * 0), then primary.
   */
  function WantedType(c: Config, pageIndex: nat): Option<HeaderFooterType>
  {
    if c.titlePage then None
    else if c.differentFirstPage && pageIndex == 0 then Some(FirstPage)
    else if c.differentOddEven && pageIndex % 2 == 0 then Some(EvenPage)
    else Some(Primary)
  }

  datatype Manager = Manager(configs: seq<Config>, currentSection: nat)

  /** `HeaderFooterManager::new`: one default section, which is current. */
  const NewManager := Manager([DefaultConfig], 0)

  predicate Valid(m: Manager)
  {
    m.currentSection < |m.configs|
  }

  /** `get_header_for_page`: the section's header when its type is the one the page wants. */
  function HeaderForPage(m: Manager, pageIndex: nat, section: nat): (r: Option<Header>)
    ensures r.Some? <==> section < |m.configs| && m.configs[section].header.Some?
                         && WantedType(m.configs[section], pageIndex) == Some(m.configs[section].header.value.headerType)
    ensures r.Some? ==> r == m.configs[section].header
  {
    if section >= |m.configs| then None
    else
      var c := m.configs[section];
      match WantedType(c, pageIndex)
      case None => None
      case Some(t) => if c.header.Some? && c.header.value.headerType == t then c.header else None
  }

  /** `get_footer_for_page`: the same choice for the footer. */
  function FooterForPage(m: Manager, pageIndex: nat, section: nat): (r: Option<Footer>)
    ensures r.Some? <==> section < |m.configs| && m.configs[section].footer.Some?
                         && WantedType(m.configs[section], pageIndex) == Some(m.configs[section].footer.value.footerType)
    ensures r.Some? ==> r == m.configs[section].footer
  {
    if section >= |m.configs| then None
    else
      var c := m.configs[section];
      match WantedType(c, pageIndex)
      case None => None
      case Some(t) => if c.footer.Some? && c.footer.value.footerType == t then c.footer else None
  }

  /** The precedence rules of the per-page choice. */
  lemma HeaderPrecedence(m: Manager, pageIndex: nat, section: nat)
    requires section < |m.configs|
    ensures var c := m.configs[section];
      var h := HeaderForPage(m, pageIndex, section);
      (c.titlePage ==> h.None?)
      && (!c.titlePage && c.differentFirstPage && pageIndex == 0 ==> (h.Some? <==> c.header.Some? && c.header.value.headerType == FirstPage))
      && (!c.titlePage && !(c.differentFirstPage && pageIndex == 0) && c.differentOddEven && pageIndex % 2 == 0 ==>
            (h.Some? <==> c.header.Some? && c.header.value.headerType == EvenPage))
      && (!c.titlePage && !(c.differentFirstPage && pageIndex == 0) && !(c.differentOddEven && pageIndex % 2 == 0) ==>
            (h.Some? <==> c.header.Some? && c.header.value.headerType == Primary))
  {
  }

  /** A header and a footer shown on the same page are of the same type. */
  lemma HeaderFooterSameType(m: Manager, pageIndex: nat, section: nat)
    requires HeaderForPage(m, pageIndex, section).Some? && FooterForPage(m, pageIndex, section).Some?
    ensures HeaderForPage(m, pageIndex, section).value.headerType == FooterForPage(m, pageIndex, section).value.footerType
  {
  }

  /** Past the first page the choice repeats every two pages; with neither option every page shows the same header. */
  lemma HeaderPeriodic(m: Manager, pageIndex: nat, section: nat)
    requires pageIndex >= 1
    ensures HeaderForPage(m, pageIndex + 2, section) == HeaderForPage(m, pageIndex, section)
    ensures section < |m.configs| && !m.configs[section].differentFirstPage && !m.configs[section].differentOddEven ==>
      HeaderForPage(m, pageIndex, section) == HeaderForPage(m, 0, section)
  {
  }

  /** Applies `f` to the current section's configuration, if there is one. */
  function UpdateCurrent(m: Manager, c: Config): (r: Manager)
    ensures |r.configs| == |m.configs| && r.currentSection == m.currentSection
    ensures forall i | 0 <= i < |m.configs| && i != m.currentSection :: r.configs[i] == m.configs[i]
    ensures m.currentSection < |m.configs| ==> r.configs[m.currentSection] == c
  {
    if m.currentSection < |m.configs| then m.(configs := m.configs[m.currentSection := c]) else m
  }

  /** `add_section`: append a copy of the last section, make it current and return its index. */
  function AddSection(m: Manager): (r: (Manager, nat))
    ensures r.1 == |m.configs| && r.0.currentSection == r.1
    ensures |r.0.configs| == |m.configs| + 1 && r.0.configs[..|m.configs|] == m.configs
    ensures r.0.configs[r.1] == (if |m.configs| > 0 then m.configs[|m.configs| - 1] else DefaultConfig)
  {
    var prev := if |m.configs| > 0 then m.configs[|m.configs| - 1] else DefaultConfig;
    (Manager(m.configs + [prev], |m.configs|), |m.configs|)
  }

  /** `set_current_section`: ignored when out of range. */
  function SetCurrentSection(m: Manager, section: nat): (r: Manager)
    ensures r.configs == m.configs
    ensures r.currentSection == (if section < |m.configs| then section else m.currentSection)
  {
    if section < |m.configs| then m.(currentSection := section) else m
  }

  function CurrentConfig(m: Manager): Option<Config>
  {
    if m.currentSection < |m.configs| then Some(m.configs[m.currentSection]) else None
  }

  /** `set_different_first_page`: only the current section's flag changes. */
  function SetDifferentFirstPage(m: Manager, enabled: bool): (r: Manager)
    ensures !Valid(m) ==> r == m
    ensures |r.configs| == |m.configs| && r.currentSection == m.currentSection
    ensures forall i | 0 <= i < |m.configs| && i != m.currentSection :: r.configs[i] == m.configs[i]
    ensures Valid(m) ==> r.configs[m.currentSection].differentFirstPage == enabled &&
                         r.configs[m.currentSection].(differentFirstPage := m.configs[m.currentSection].differentFirstPage) ==
                         m.configs[m.currentSection]
  {
    match CurrentConfig(m)
    case None => m
    case Some(c) => UpdateCurrent(m, c.(differentFirstPage := enabled))
  }

  /** `set_different_odd_even`: only the current section's flag changes. */
  function SetDifferentOddEven(m: Manager, enabled: bool): (r: Manager)
    ensures !Valid(m) ==> r == m
    ensures |r.configs| == |m.configs| && r.currentSection == m.currentSection
    ensures forall i | 0 <= i < |m.configs| && i != m.currentSection :: r.configs[i] == m.configs[i]
    ensures Valid(m) ==> r.configs[m.currentSection].differentOddEven == enabled &&
                         r.configs[m.currentSection].(differentOddEven := m.configs[m.currentSection].differentOddEven) ==
                         m.configs[m.currentSection]
  {
    match CurrentConfig(m)
    case None => m
    case Some(c) => UpdateCurrent(m, c.(differentOddEven := enabled))
  }

  /** `set_header`: only the current section's header changes. */
  function SetHeader(m: Manager, h: Header): (r: Manager)
    ensures !Valid(m) ==> r == m
    ensures |r.configs| == |m.configs| && r.currentSection == m.currentSection
    ensures forall i | 0 <= i < |m.configs| && i != m.currentSection :: r.configs[i] == m.configs[i]
    ensures Valid(m) ==> r.configs[m.currentSection].header == Some(h) &&
                         r.configs[m.currentSection].(header := m.configs[m.currentSection].header) ==
                         m.configs[m.currentSection]
  {
    match CurrentConfig(m)
    case None => m
    case Some(c) => UpdateCurrent(m, c.(header := Some(h)))
  }

  /** `set_footer`: only the current section's footer changes. */
  function SetFooter(m: Manager, f: Footer): (r: Manager)
    ensures !Valid(m) ==> r == m
    ensures |r.configs| == |m.configs| && r.currentSection == m.currentSection
    ensures forall i | 0 <= i < |m.configs| && i != m.currentSection :: r.configs[i] == m.configs[i]
    ensures Valid(m) ==> r.configs[m.currentSection].footer == Some(f) &&
                         r.configs[m.currentSection].(footer := m.configs[m.currentSection].footer) ==
                         m.configs[m.currentSection]
  {
    match CurrentConfig(m)
    case None => m
    case Some(c) => UpdateCurrent(m, c.(footer := Some(f)))
  }

  /** Every manager operation keeps the current section in range and leaves the other sections alone. */
  lemma OperationsKeepValid(m: Manager, section: nat, enabled: bool, h: Header, f: Footer)
    requires Valid(m)
    ensures Valid(NewManager) && Valid(AddSection(m).0) && Valid(SetCurrentSection(m, section))
    ensures Valid(SetDifferentFirstPage(m, enabled)) && Valid(SetDifferentOddEven(m, enabled))
    ensures Valid(SetHeader(m, h)) && Valid(SetFooter(m, f))
    ensures forall i | 0 <= i < |m.configs| && i != m.currentSection ::
      SetHeader(m, h).configs[i] == m.configs[i] && SetFooter(m, f).configs[i] == m.configs[i]
  {
  }

  /** A primary header set on the current section shows on every page while no option is on. */
  lemma SetHeaderShows(m: Manager, h: Header, pageIndex: nat)
    requires Valid(m) && h.headerType == Primary
    requires var c := m.configs[m.currentSection]; !c.titlePage && !c.differentFirstPage && !c.differentOddEven
    ensures HeaderForPage(SetHeader(m, h), pageIndex, m.currentSection) == Some(h)
  {
  }

  /** With a different first page, the first page shows only a first-page header. */
  lemma FirstPageExample(h: Header)
    requires h.headerType == FirstPage
    ensures var m := SetHeader(SetDifferentFirstPage(NewManager, true), h);
      HeaderForPage(m, 0, 0) == Some(h) && HeaderForPage(m, 1, 0) == None
  {
  }

  /** `add_section` copies the current options into the new section. */
  lemma AddSectionExample()
    ensures var (m, i) := AddSection(SetDifferentOddEven(NewManager, true));
      i == 1 && |m.configs| == 2 && m.configs[1].differentOddEven && Valid(m)
  {
  }

  /** `get_section_start_page`: every section starts at page 1 (`set_section_start_page` does nothing). */
  function SectionStartPage(m: Manager, section: nat): nat
  {
    1
  }

  // ---------------------------------------------------------------
  // Content region
  // ---------------------------------------------------------------

  datatype Rect = Rect(x: real, y: real, width: real, height: real)

  function Bottom(r: Rect): real
  {
    r.y + r.height
  }

  datatype Region = Region(headerRect: Option<Rect>, footerRect: Option<Rect>, contentTop: real, contentBottom: real)

  datatype PageBox = PageBox(width: real, height: real, marginTop: real, marginBottom: real, marginLeft: real, marginRight: real)

  /** `calculate_content_region`: header and footer bands inside the margins, the content between them. */
  function ContentRegion(m: Manager, pageIndex: nat, section: nat, page: PageBox): Region
  {
    var header := HeaderForPage(m, pageIndex, section);
    var footer := FooterForPage(m, pageIndex, section);
    var headerHeight := if header.Some? then header.value.height else 0.0;
    var footerHeight := if footer.Some? then footer.value.height else 0.0;
    var headerMargin := if header.Some? then header.value.margin else 0.0;
    var footerMargin := if footer.Some? then footer.value.margin else 0.0;
    var width := page.width - page.marginLeft - page.marginRight;
    Region(
      if headerHeight > 0.0 then Some(Rect(page.marginLeft, page.marginTop + headerMargin, width, headerHeight)) else None,
      if footerHeight > 0.0 then Some(Rect(page.marginLeft, page.height - page.marginBottom - footerMargin - footerHeight, width, footerHeight)) else None,
      page.marginTop + headerHeight + headerMargin,
      page.height - page.marginBottom - footerHeight - footerMargin)
  }

  /**
   * The content starts where the header band ends and ends where the
   * footer band starts; without a header (or footer) on the page the
   * content reaches the margin.
   */
  lemma ContentRegionBands(m: Manager, pageIndex: nat, section: nat, page: PageBox)
    ensures var r := ContentRegion(m, pageIndex, section, page);
      (r.headerRect.Some? ==> Bottom(r.headerRect.value) == r.contentTop && r.headerRect.value.x == page.marginLeft
                              && r.headerRect.value.width == page.width - page.marginLeft - page.marginRight)
      && (r.footerRect.Some? ==> r.footerRect.value.y == r.contentBottom && r.footerRect.value.x == page.marginLeft
                                 && r.footerRect.value.width == page.width - page.marginLeft - page.marginRight)
      && (HeaderForPage(m, pageIndex, section).None? ==> r.headerRect.None? && r.contentTop == page.marginTop)
      && (FooterForPage(m, pageIndex, section).None? ==> r.footerRect.None? && r.contentBottom == page.height - page.marginBottom)
      && (r.headerRect.Some? <==> HeaderForPage(m, pageIndex, section).Some? && HeaderForPage(m, pageIndex, section).value.height > 0.0)
      && (r.footerRect.Some? <==> FooterForPage(m, pageIndex, section).Some? && FooterForPage(m, pageIndex, section).value.height > 0.0)
  {
  }

  /** A header of height 50 at margin 10 on a page with 72-point margins. */
  lemma ContentRegionExample(h: Header)
    requires h.headerType == Primary && h.height == 50.0 && h.margin == 10.0
    ensures var r := ContentRegion(SetHeader(NewManager, h), 0, 0, PageBox(595.0, 842.0, 72.0, 72.0, 72.0, 72.0));
      r.headerRect == Some(Rect(72.0, 82.0, 451.0, 50.0)) && r.contentTop == 132.0 && r.contentBottom == 770.0
  {
  }
}
