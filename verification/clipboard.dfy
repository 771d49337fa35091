/**
 * The editor's clipboard (`clipboard.rs`): the current content, a bounded
 * history of what was copied, content-type detection, and the HTML/XML
 * text helpers (tag stripping, entity resolution, XML escaping, plain
 * text to HTML).  The process-wide clipboard behind a lock is left out;
 * the model works on a clipboard value.
 */
module Clipboard {
  import opened Wrappers
  import opened TextUtil

  const MimeText := "text/plain"
  const MimeHtml := "text/html"
  const MimeRtf := "application/rtf"
  const MimeImagePng := "image/png"
  const MimeImageJpeg := "image/jpeg"
  const MimeWord := "application/vnd.openxmlformats-officedocument.wordprocessingml.document"

  datatype ImageData = ImageData(data: seq<Byte>, format: string, width: nat, height: nat)

  datatype MixedData = MixedData(plainText: string, richText: Option<string>, wordFragment: Option<seq<Byte>>)

  datatype Content =
    | PlainText(text: string)
    | RichText(html: string)
    | WordFragment(bytes: seq<Byte>)
    | Image(image: ImageData)
    | Mixed(mixed: MixedData)
    | Empty

  datatype ContentType = PlainTextType | RichTextType | WordType | ImageType | Unknown

  /** The history keeps at most ten entries. */
  const DefaultMaxHistory: nat := 10

  datatype Clipboard = Clipboard(content: Content, history: seq<Content>, maxHistory: nat)

  const NewClipboard := Clipboard(Empty, [], DefaultMaxHistory)

  /** What every operation keeps: the history is within its bound. */
  predicate Valid(c: Clipboard)
  {
    |c.history| <= c.maxHistory
  }

  /** `r` is the newest `Min(|all|, m)` entries of `all`, oldest first. */
  predicate NewestOf(r: seq<Content>, all: seq<Content>, m: nat)
  {
    |r| == Min(|all|, m) && r == all[|all| - |r|..]
  }

  /** Keeping the newest entries twice is keeping the newest entries of everything. */
  lemma NewestOfTrans(a: seq<Content>, all: seq<Content>, ys: seq<Content>, b: seq<Content>, m: nat)
    requires NewestOf(a, all, m) && NewestOf(b, a + ys, m)
    ensures NewestOf(b, all + ys, m)
  {
    var k := |all| - |a|;
    assert a + ys == (all + ys)[k..];
    assert b == (all + ys)[k + (|a| + |ys| - |b|)..];
  }

  /** `clear`: the content goes, the history stays. */
  function Clear(c: Clipboard): (r: Clipboard)
    ensures r.content == Empty && r.history == c.history && r.maxHistory == c.maxHistory
  {
    c.(content := Empty)
  }

  /**
   * Store `content` and append it to the history, dropping the oldest
   * entry when the history grows past its bound.
   */
  function SetContent(c: Clipboard, content: Content): (r: Clipboard)
    requires Valid(c)
    ensures Valid(r) && r.content == content && r.maxHistory == c.maxHistory
    ensures NewestOf(r.history, c.history + [content], c.maxHistory)
    ensures c.maxHistory >= 1 ==> |r.history| >= 1 && r.history[|r.history| - 1] == content
  {
    var h := c.history + [content];
    c.(content := content, history := if |h| > c.maxHistory then h[1..] else h)
  }

  /** `set_text`. */
  function SetText(c: Clipboard, text: string): (r: Clipboard)
    requires Valid(c)
    ensures r == SetContent(c, PlainText(text))
    ensures GetText(r) == Some(text) && DetectContentType(r) == PlainTextType
  {
    SetContent(c, PlainText(text))
  }

  /** `set_rich_text`: HTML together with its plain-text form. */
  function SetRichText(c: Clipboard, html: string, plain: string): (r: Clipboard)
    requires Valid(c)
    ensures r == SetContent(c, Mixed(MixedData(plain, Some(html), None)))
    ensures GetText(r) == Some(plain) && GetRichText(r) == Some(html) && DetectContentType(r) == RichTextType
  {
    SetContent(c, Mixed(MixedData(plain, Some(html), None)))
  }

  /** `set_word_fragment`: an OOXML fragment together with its plain-text form. */
  function SetWordFragment(c: Clipboard, fragment: seq<Byte>, plain: string): (r: Clipboard)
    requires Valid(c)
    ensures r == SetContent(c, Mixed(MixedData(plain, None, Some(fragment))))
    ensures GetText(r) == Some(plain) && GetWordFragment(r) == Some(fragment) && DetectContentType(r) == WordType
  {
    SetContent(c, Mixed(MixedData(plain, None, Some(fragment))))
  }

  /** `set_image`. */
  function SetImage(c: Clipboard, image: ImageData): (r: Clipboard)
    requires Valid(c)
    ensures r == SetContent(c, Image(image))
    ensures GetImage(r) == Some(image) && GetText(r).None? && DetectContentType(r) == ImageType
  {
    SetContent(c, Image(image))
  }

  /** `get_text`: plain text, or the plain-text form of mixed content. */
  function GetText(c: Clipboard): (r: Option<string>)
    ensures r.Some? <==> c.content.PlainText? || c.content.Mixed?
  {
    match c.content
    case PlainText(t) => Some(t)
    case Mixed(m) => Some(m.plainText)
    case _ => None
  }

  function GetRichText(c: Clipboard): (r: Option<string>)
    ensures r.Some? <==> c.content.RichText? || (c.content.Mixed? && c.content.mixed.richText.Some?)
  {
    match c.content
    case RichText(h) => Some(h)
    case Mixed(m) => m.richText
    case _ => None
  }

  function GetWordFragment(c: Clipboard): (r: Option<seq<Byte>>)
    ensures r.Some? <==> c.content.WordFragment? || (c.content.Mixed? && c.content.mixed.wordFragment.Some?)
  {
    match c.content
    case WordFragment(b) => Some(b)
    case Mixed(m) => m.wordFragment
    case _ => None
  }

  function GetImage(c: Clipboard): (r: Option<ImageData>)
    ensures r.Some? <==> c.content.Image?
  {
    match c.content
    case Image(i) => Some(i)
    case _ => None
  }

  /** `detect_content_type`: mixed content reports its richest form. */
  function DetectContentType(c: Clipboard): (t: ContentType)
    ensures t == Unknown <==> c.content.Empty?
  {
    match c.content
    case PlainText(_) => PlainTextType
    case RichText(_) => RichTextType
    case WordFragment(_) => WordType
    case Image(_) => ImageType
    case Mixed(m) =>
      if m.wordFragment.Some? then WordType
      else if m.richText.Some? then RichTextType
      else PlainTextType
    case Empty => Unknown
  }

  /** The detected type always names a form the getters can return. */
  lemma DetectedTypeIsAvailable(c: Clipboard)
    ensures DetectContentType(c) == PlainTextType ==> GetText(c).Some?
    ensures DetectContentType(c) == RichTextType ==> GetRichText(c).Some?
    ensures DetectContentType(c) == WordType ==> GetWordFragment(c).Some?
    ensures DetectContentType(c) == ImageType <==> GetImage(c).Some?
  {
  }

  /** `get_history`. */
  function GetHistory(c: Clipboard, index: nat): (r: Option<Content>)
    ensures r.Some? <==> index < |c.history|
    ensures r.Some? ==> r.value == c.history[index]
  {
    if index < |c.history| then Some(c.history[index]) else None
  }

  /** Eleven copies into a fresh clipboard keep the last ten, oldest first. */
  lemma HistoryDropsOldest(texts: seq<string>)
    requires |texts| == 11
    ensures var c := SetTexts(NewClipboard, texts);
            |c.history| == 10 && c.history == Plains(texts[1..])
  {
    OverflowDropsOldest(NewClipboard, texts);
  }

  /** Copying one more text than an empty history holds drops exactly the first. */
  lemma OverflowDropsOldest(c: Clipboard, texts: seq<string>)
    requires Valid(c) && c.history == [] && |texts| == c.maxHistory + 1
    ensures SetTexts(c, texts).history == Plains(texts[1..])
  {
    var all := Plains(texts);
    var h := SetTexts(c, texts).history;
    SetTextsHistory(c, texts);
    assert c.history + all == all;
    assert NewestOf(h, all, c.maxHistory);
    assert Min(|all|, c.maxHistory) == c.maxHistory;
    assert h == all[1..];
    assert all[1..] == Plains(texts[1..]) by {
      assert all == [PlainText(texts[0])] + Plains(texts[1..]);
    }
  }

  /** Copy each text in turn. */
  function SetTexts(c: Clipboard, texts: seq<string>): (r: Clipboard)
    requires Valid(c)
    ensures Valid(r)
    decreases |texts|
  {
    if |texts| == 0 then c else SetTexts(SetContent(c, PlainText(texts[0])), texts[1..])
  }

  /** The history entries that copying `texts` adds. */
  function Plains(texts: seq<string>): (r: seq<Content>)
    ensures |r| == |texts|
  {
    if |texts| == 0 then [] else [PlainText(texts[0])] + Plains(texts[1..])
  }

  /** After copying texts one by one, the history is the newest entries of old history and texts together. */
  lemma {:induction false} SetTextsHistory(c: Clipboard, texts: seq<string>)
    requires Valid(c)
    ensures NewestOf(SetTexts(c, texts).history, c.history + Plains(texts), c.maxHistory)
    decreases |texts|
  {
    if |texts| > 0 {
      var c1 := SetContent(c, PlainText(texts[0]));
      var rest := texts[1..];
      SetTextsHistory(c1, rest);
      assert Plains(texts) == [PlainText(texts[0])] + Plains(rest);
      var all := c.history + [PlainText(texts[0])];
      assert c.history + Plains(texts) == all + Plains(rest);
      NewestOfTrans(c1.history, c.history + [PlainText(texts[0])], Plains(rest), SetTexts(c1, rest).history, c.maxHistory);
    } else {
      assert c.history + Plains(texts) == c.history;
    }
  }

  function Min(a: nat, b: nat): nat { if a <= b then a else b }

  // ---------------------------------------------------------------
  // HTML and XML text helpers
  // ---------------------------------------------------------------

  /** `resolve_entity`: the nine named entities; anything else is kept as written. */
  function ResolveEntity(e: string): (r: string)
    ensures (e != "&nbsp;" && e != "&amp;" && e != "&lt;" && e != "&gt;" && e != "&quot;" && e != "&apos;" &&
             e != "&copy;" && e != "&reg;" && e != "&trade;") ==> r == e
    ensures |r| == 1 || r == e
  {
    if e == "&nbsp;" then " "
    else if e == "&amp;" then "&"
    else if e == "&lt;" then "<"
    else if e == "&gt;" then ">"
    else if e == "&quot;" then "\""
    else if e == "&apos;" then "'"
    else if e == "&copy;" then "©"
    else if e == "&reg;" then "®"
    else if e == "&trade;" then "™"
    else e
  }

  /**
   * The loop of `strip_html_tags` from some state on: inside an entity
   * every character is collected up to `;`, which resolves it; `&` starts
   * an entity (even inside a tag); `<` and `>` open and close a tag; other
   * characters are kept outside tags.  An entity still open at the end is
   * dropped.
   */
  function StripFrom(s: string, inTag: bool, inEntity: bool, entity: string): (r: string)
    decreases |s|
  {
    if |s| == 0 then ""
    else
      var c := s[0];
      if inEntity then
        if c == ';' then ResolveEntity(entity + [c]) + StripFrom(s[1..], inTag, false, "")
        else StripFrom(s[1..], inTag, true, entity + [c])
      else if c == '&' then StripFrom(s[1..], inTag, true, "&")
      else if c == '<' then StripFrom(s[1..], true, false, entity)
      else if c == '>' then StripFrom(s[1..], false, false, entity)
      else if !inTag then [c] + StripFrom(s[1..], inTag, false, entity)
      else StripFrom(s[1..], inTag, false, entity)
  }

  /** `strip_html_tags`. */
  function StripHtmlTags(html: string): string
  {
    StripFrom(html, false, false, "")
  }

  /** Text without markup characters passes through unchanged. */
  lemma PlainTextSurvivesStrip(text: string)
    requires '&' !in text && '<' !in text && '>' !in text
    ensures StripHtmlTags(text) == text
  {
    NoMarkupKept(text, "");
  }

  lemma {:induction false} NoMarkupKept(s: string, e: string)
    requires '&' !in s && '<' !in s && '>' !in s
    ensures StripFrom(s, false, false, e) == s
  {
    if |s| > 0 {
      NoMarkupKept(s[1..], e);
    }
  }

  /** A tag without `&` inside vanishes, whatever follows it. */
  lemma {:induction false} TagVanishes(tag: string, rest: string, inTag: bool, e: string)
    requires '&' !in tag && '>' !in tag
    ensures StripFrom(['<'] + tag + ['>'] + rest, inTag, false, e) == StripFrom(rest, false, false, e)
  {
    var s := ['<'] + tag + ['>'] + rest;
    assert s[0] == '<' && s[1..] == tag + ['>'] + rest;
    assert (['>'] + rest)[0] == '>';
    assert tag + ['>'] + rest == tag + (['>'] + rest);
    InsideTag(tag, ['>'] + rest, e);
    assert (['>'] + rest)[1..] == rest;
  }

  lemma {:induction false} InsideTag(t: string, rest: string, e: string)
    requires '&' !in t && '>' !in t
    ensures StripFrom(t + rest, true, false, e) == StripFrom(rest, true, false, e)
  {
    if |t| > 0 {
      assert (t + rest)[1..] == t[1..] + rest;
      InsideTag(t[1..], rest, e);
    } else {
      assert t + rest == rest;
    }
  }

  /**
   * `escape_xml`: five replacements in a row, `&` first so that the
   * ampersands the later ones introduce stay as they are.
   */
  function EscapeXml(text: string): string
  {
    ReplaceChar(ReplaceChar(ReplaceChar(ReplaceChar(ReplaceChar(text, '&', "&amp;"), '<', "&lt;"), '>', "&gt;"),
                            '"', "&quot;"), '\'', "&apos;")
  }

  /** Escaped text holds no markup character other than the `&` of its entities. */
  lemma EscapedHasNoMarkup(text: string)
    ensures var r := EscapeXml(text); '<' !in r && '>' !in r && '"' !in r && '\'' !in r
  {
    var t1 := ReplaceChar(text, '&', "&amp;");
    var t2 := ReplaceChar(t1, '<', "&lt;");
    var t3 := ReplaceChar(t2, '>', "&gt;");
    var t4 := ReplaceChar(t3, '"', "&quot;");
    ReplaceCharKeepsAbsent(t2, '>', "&gt;", '<');
    ReplaceCharKeepsAbsent(t3, '"', "&quot;", '<');
    ReplaceCharKeepsAbsent(t3, '"', "&quot;", '>');
    ReplaceCharKeepsAbsent(t4, '\'', "&apos;", '<');
    ReplaceCharKeepsAbsent(t4, '\'', "&apos;", '>');
    ReplaceCharKeepsAbsent(t4, '\'', "&apos;", '"');
  }

  /** The chain of replacements escapes each character on its own. */
  lemma {:induction false} EscapeXmlIsPerChar(text: string)
    ensures EscapeXml(text) == EscapeXmlEach(text)
  {
    if |text| > 0 {
      var c := text[0];
      var t := text[1..];
      assert text == [c] + t;
      ReplaceCharAppend([c], t, '&', "&amp;");
      var a1 := ReplaceChar([c], '&', "&amp;");
      var b1 := ReplaceChar(t, '&', "&amp;");
      ReplaceCharAppend(a1, b1, '<', "&lt;");
      var a2 := ReplaceChar(a1, '<', "&lt;");
      var b2 := ReplaceChar(b1, '<', "&lt;");
      ReplaceCharAppend(a2, b2, '>', "&gt;");
      var a3 := ReplaceChar(a2, '>', "&gt;");
      var b3 := ReplaceChar(b2, '>', "&gt;");
      ReplaceCharAppend(a3, b3, '"', "&quot;");
      var a4 := ReplaceChar(a3, '"', "&quot;");
      var b4 := ReplaceChar(b3, '"', "&quot;");
      ReplaceCharAppend(a4, b4, '\'', "&apos;");
      EscapeOneChar(c);
      EscapeXmlIsPerChar(t);
    }
  }

  lemma EscapeOneChar(c: char)
    ensures ReplaceChar(ReplaceChar(ReplaceChar(ReplaceChar(ReplaceChar([c], '&', "&amp;"), '<', "&lt;"), '>', "&gt;"),
                                    '"', "&quot;"), '\'', "&apos;") == EscapeXmlChar(c)
  {
    var t1 := ReplaceChar([c], '&', "&amp;");
    ReplaceCharSingle(c, '&', "&amp;");
    if c == '&' {
      Untouched(t1);
    } else {
      var t2 := ReplaceChar(t1, '<', "&lt;");
      ReplaceCharSingle(c, '<', "&lt;");
      if c == '<' {
        LaterUntouched(t2);
      } else {
        var t3 := ReplaceChar(t2, '>', "&gt;");
        ReplaceCharSingle(c, '>', "&gt;");
        if c == '>' {
          ReplaceCharAbsent(t3, '"', "&quot;");
          ReplaceCharAbsent(t3, '\'', "&apos;");
        } else {
          var t4 := ReplaceChar(t3, '"', "&quot;");
          ReplaceCharSingle(c, '"', "&quot;");
          if c == '"' {
            ReplaceCharAbsent(t4, '\'', "&apos;");
          } else {
            ReplaceCharSingle(c, '\'', "&apos;");
          }
        }
      }
    }
  }

  lemma LaterUntouched(t: string)
    requires '>' !in t && '"' !in t && '\'' !in t
    ensures ReplaceChar(ReplaceChar(ReplaceChar(t, '>', "&gt;"), '"', "&quot;"), '\'', "&apos;") == t
  {
    ReplaceCharAbsent(t, '>', "&gt;");
    ReplaceCharAbsent(t, '"', "&quot;");
    ReplaceCharAbsent(t, '\'', "&apos;");
  }

  /** An entity that has no `<`, `>`, quote or apostrophe survives the later replacements. */
  lemma Untouched(t: string)
    requires '<' !in t && '>' !in t && '"' !in t && '\'' !in t
    ensures ReplaceChar(ReplaceChar(ReplaceChar(ReplaceChar(t, '<', "&lt;"), '>', "&gt;"), '"', "&quot;"), '\'', "&apos;") == t
  {
    ReplaceCharAbsent(t, '<', "&lt;");
    ReplaceCharAbsent(t, '>', "&gt;");
    ReplaceCharAbsent(t, '"', "&quot;");
    ReplaceCharAbsent(t, '\'', "&apos;");
  }

  lemma ReplaceCharSingle(c: char, x: char, rep: string)
    ensures ReplaceChar([c], x, rep) == if c == x then rep else [c]
  {
    assert [c][1..] == [];
  }

  /** Stripping undoes one escaped markup character: its entity resolves back to it. */
  lemma StripEscapedMarkup(c: char, rest: string, e: string)
    requires c == '&' || c == '<' || c == '>' || c == '"' || c == '\''
    ensures StripFrom(EscapeXmlChar(c) + rest, false, false, e) == [c] + StripFrom(rest, false, false, "")
  {
    if c == '&' {
      StripEntity("amp;", rest, e);
    } else if c == '<' {
      StripEntity("lt;", rest, e);
    } else if c == '>' {
      StripEntity("gt;", rest, e);
    } else if c == '"' {
      StripEntity("quot;", rest, e);
    } else {
      StripEntity("apos;", rest, e);
    }
  }

  /** An entity `&name;` in text outside an entity is replaced by what it resolves to. */
  lemma StripEntity(body: string, rest: string, e: string)
    requires |body| >= 1 && body[|body| - 1] == ';' && ';' !in body[..|body| - 1]
    ensures StripFrom(['&'] + body + rest, false, false, e) == ResolveEntity(['&'] + body) + StripFrom(rest, false, false, "")
  {
    var s := ['&'] + body + rest;
    assert s[0] == '&' && s[1..] == body + rest;
    EntityBody(body, rest, "&");
  }

  /** Any other character is copied through. */
  lemma StripEscapedPlain(c: char, rest: string, e: string)
    requires c != '&' && c != '<' && c != '>' && c != '"' && c != '\''
    ensures StripFrom(EscapeXmlChar(c) + rest, false, false, e) == [c] + StripFrom(rest, false, false, e)
  {
    PlainCharKept(c, rest, e);
  }

  lemma PlainCharKept(c: char, rest: string, e: string)
    requires c != '&' && c != '<' && c != '>'
    ensures StripFrom([c] + rest, false, false, e) == [c] + StripFrom(rest, false, false, e)
  {
    assert ([c] + rest)[1..] == rest;
  }

  /** A run of text without markup outside any tag is copied through. */
  lemma {:induction false} PlainRunKept(t: string, rest: string, e: string)
    requires '&' !in t && '<' !in t && '>' !in t
    ensures StripFrom(t + rest, false, false, e) == t + StripFrom(rest, false, false, e)
  {
    if |t| > 0 {
      assert t + rest == [t[0]] + (t[1..] + rest);
      PlainCharKept(t[0], t[1..] + rest, e);
      PlainRunKept(t[1..], rest, e);
    } else {
      assert t + rest == rest;
    }
  }

  /** Inside an entity, its characters up to `;` are collected and resolved. */
  lemma {:induction false} EntityBody(body: string, rest: string, e: string)
    requires |body| >= 1 && body[|body| - 1] == ';' && ';' !in body[..|body| - 1]
    ensures StripFrom(body + rest, false, true, e) == ResolveEntity(e + body) + StripFrom(rest, false, false, "")
  {
    assert (body + rest)[0] == body[0];
    assert (body + rest)[1..] == body[1..] + rest;
    if |body| > 1 {
      assert body[1..][..|body[1..]| - 1] == body[1..|body| - 1];
      EntityBody(body[1..], rest, e + [body[0]]);
      assert e + [body[0]] + body[1..] == e + body;
    } else {
      assert e + [body[0]] == e + body;
      assert body[1..] + rest == rest;
    }
  }

  /** Stripping escaped text gives back the text: `escape_xml` output has no tags and only known entities. */
  lemma {:induction false} StripUndoesEscape(text: string, e: string)
    ensures StripFrom(EscapeXmlEach(text), false, false, e) == text
  {
    if |text| > 0 {
      var c := text[0];
      if c == '&' || c == '<' || c == '>' || c == '"' || c == '\'' {
        StripEscapedMarkup(c, EscapeXmlEach(text[1..]), e);
        StripUndoesEscape(text[1..], "");
      } else {
        StripEscapedPlain(c, EscapeXmlEach(text[1..]), e);
        StripUndoesEscape(text[1..], e);
      }
    }
  }

  /** The round trip `strip_html_tags(escape_xml(t)) == t`. */
  lemma EscapeThenStrip(text: string)
    ensures StripHtmlTags(EscapeXml(text)) == text
  {
    EscapeXmlIsPerChar(text);
    StripUndoesEscape(text, "");
  }

  const HtmlPrefix := "<!DOCTYPE html>\n<html>\n<head>\n<meta charset=\"utf-8\">\n</head>\n<body>\n"
  const HtmlSuffix := "\n</body>\n</html>"

  /** The body `text_to_html` writes: `& < >` escaped, each newline a `<br/>`. */
  function HtmlBody(text: string): string
  {
    ReplaceChar(ReplaceChar(ReplaceChar(ReplaceChar(text, '&', "&amp;"), '<', "&lt;"), '>', "&gt;"), '\n', "<br/>")
  }

  /** What `text_to_html` writes for one character. */
  function HtmlBodyChar(c: char): string
  {
    if c == '&' then "&amp;"
    else if c == '<' then "&lt;"
    else if c == '>' then "&gt;"
    else if c == '\n' then "<br/>"
    else [c]
  }

  function HtmlBodyEach(text: string): string
  {
    if |text| == 0 then "" else HtmlBodyChar(text[0]) + HtmlBodyEach(text[1..])
  }

  lemma HtmlBodyOneChar(c: char)
    ensures ReplaceChar(ReplaceChar(ReplaceChar(ReplaceChar([c], '&', "&amp;"), '<', "&lt;"), '>', "&gt;"), '\n', "<br/>")
            == HtmlBodyChar(c)
  {
    var t1 := ReplaceChar([c], '&', "&amp;");
    ReplaceCharSingle(c, '&', "&amp;");
    if c == '&' {
      HtmlUntouched(t1);
    } else {
      var t2 := ReplaceChar(t1, '<', "&lt;");
      ReplaceCharSingle(c, '<', "&lt;");
      if c == '<' {
        HtmlLaterUntouched(t2);
      } else {
        var t3 := ReplaceChar(t2, '>', "&gt;");
        ReplaceCharSingle(c, '>', "&gt;");
        if c == '>' {
          ReplaceCharAbsent(t3, '\n', "<br/>");
        } else {
          ReplaceCharSingle(c, '\n', "<br/>");
        }
      }
    }
  }

  lemma HtmlUntouched(t: string)
    requires '<' !in t && '>' !in t && '\n' !in t
    ensures ReplaceChar(ReplaceChar(ReplaceChar(t, '<', "&lt;"), '>', "&gt;"), '\n', "<br/>") == t
  {
    ReplaceCharAbsent(t, '<', "&lt;");
    HtmlLaterUntouched(t);
  }

  lemma HtmlLaterUntouched(t: string)
    requires '>' !in t && '\n' !in t
    ensures ReplaceChar(ReplaceChar(t, '>', "&gt;"), '\n', "<br/>") == t
  {
    ReplaceCharAbsent(t, '>', "&gt;");
    ReplaceCharAbsent(t, '\n', "<br/>");
  }

  /** The chain of replacements in `text_to_html` rewrites each character on its own. */
  lemma {:induction false} HtmlBodyIsPerChar(text: string)
    ensures HtmlBody(text) == HtmlBodyEach(text)
  {
    if |text| > 0 {
      var c := text[0];
      var t := text[1..];
      assert text == [c] + t;
      ReplaceCharAppend([c], t, '&', "&amp;");
      var a1 := ReplaceChar([c], '&', "&amp;");
      var b1 := ReplaceChar(t, '&', "&amp;");
      ReplaceCharAppend(a1, b1, '<', "&lt;");
      var a2 := ReplaceChar(a1, '<', "&lt;");
      var b2 := ReplaceChar(b1, '<', "&lt;");
      ReplaceCharAppend(a2, b2, '>', "&gt;");
      var a3 := ReplaceChar(a2, '>', "&gt;");
      var b3 := ReplaceChar(b2, '>', "&gt;");
      ReplaceCharAppend(a3, b3, '\n', "<br/>");
      HtmlBodyOneChar(c);
      HtmlBodyIsPerChar(t);
    }
  }

  /** Stripping one rewritten character gives it back, or nothing for a line break. */
  lemma StripHtmlBodyChar(c: char, rest: string)
    ensures StripFrom(HtmlBodyChar(c) + rest, false, false, "")
            == (if c == '\n' then "" else [c]) + StripFrom(rest, false, false, "")
  {
    if c == '&' || c == '<' || c == '>' {
      StripEscapedMarkup(c, rest, "");
    } else if c == '\n' {
      TagVanishes("br/", rest, false, "");
      assert HtmlBodyChar(c) + rest == ['<'] + "br/" + ['>'] + rest;
    } else {
      PlainCharKept(c, rest, "");
    }
  }

  /** The plain text of an HTML body is the original text without its line breaks. */
  lemma {:induction false} StripHtmlBody(text: string)
    ensures StripHtmlTags(HtmlBody(text)) == RemoveChar(text, '\n')
  {
    HtmlBodyIsPerChar(text);
    StripHtmlBodyEach(text);
  }

  lemma {:induction false} StripHtmlBodyEach(text: string)
    ensures StripFrom(HtmlBodyEach(text), false, false, "") == RemoveChar(text, '\n')
  {
    if |text| > 0 {
      StripHtmlBodyChar(text[0], HtmlBodyEach(text[1..]));
      StripHtmlBodyEach(text[1..]);
    }
  }

  /** `text_to_html`: the escaped body inside a fixed document template. */
  function TextToHtml(text: string): (r: string)
    ensures |r| >= |HtmlPrefix| + |HtmlSuffix|
    ensures r[..|HtmlPrefix|] == HtmlPrefix && r[|r| - |HtmlSuffix|..] == HtmlSuffix
    ensures r[|HtmlPrefix|..|r| - |HtmlSuffix|] == HtmlBody(text)
  {
    HtmlPrefix + HtmlBody(text) + HtmlSuffix
  }
}
