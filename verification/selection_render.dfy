// Selection rendering: the rectangles drawn for a selection, their
// bounding box, the renderer's character-width settings and the highlight
// colour used in dark mode.  Positions and sizes are reals (f32 in the
// Rust code); colours are strings of ASCII characters.

module SelectionRender {
  import opened Wrappers

  datatype SelectionRenderConfig = SelectionRenderConfig(
    highlightColor: string,
    columnColor: string,
    textColor: Option<string>,
    cornerRadius: real,
    opacity: real,
    showBorder: bool,
    borderColor: string,
    borderWidth: real,
    roundedCorners: bool,
    invertColors: bool)

  const DefaultConfig: SelectionRenderConfig :=
    SelectionRenderConfig("#3399FF", "#9966FF", Some("#FFFFFF"), 2.0, 0.3, false, "#FFFFFF", 1.0, true, false)

  datatype SelectionRect = SelectionRect(
    x: real, y: real, width: real, height: real,
    lineIndex: nat, charStart: nat, charEnd: nat, isColumn: bool)

  /** A rectangle of an ordinary (not column) selection. */
  function NewSelectionRect(x: real, y: real, width: real, height: real,
                            lineIndex: nat, charStart: nat, charEnd: nat): (r: SelectionRect)
    ensures !r.isColumn
    ensures r.x == x && r.y == y && r.width == width && r.height == height
    ensures r.lineIndex == lineIndex && r.charStart == charStart && r.charEnd == charEnd
  {
    SelectionRect(x, y, width, height, lineIndex, charStart, charEnd, false)
  }

  datatype BoundingBox = BoundingBox(minX: real, minY: real, maxX: real, maxY: real, width: real, height: real)

  function Min(a: real, b: real): real { if a <= b then a else b }
  function Max(a: real, b: real): real { if a >= b then a else b }

  /** The box holds rectangle r. */
  predicate Encloses(minX: real, minY: real, maxX: real, maxY: real, r: SelectionRect)
  {
    minX <= r.x && minY <= r.y && r.x + r.width <= maxX && r.y + r.height <= maxY
  }

  /** The hull of the non-empty rects, grown rectangle by rectangle. */
  function Hull(rects: seq<SelectionRect>): (b: (real, real, real, real))
    requires |rects| > 0
    ensures forall k :: 0 <= k < |rects| ==> Encloses(b.0, b.1, b.2, b.3, rects[k])
    ensures exists k :: 0 <= k < |rects| && b.0 == rects[k].x
    ensures exists k :: 0 <= k < |rects| && b.1 == rects[k].y
    ensures exists k :: 0 <= k < |rects| && b.2 == rects[k].x + rects[k].width
    ensures exists k :: 0 <= k < |rects| && b.3 == rects[k].y + rects[k].height
  {
    var n := |rects|;
    var r := rects[n - 1];
    if n == 1 then (r.x, r.y, r.x + r.width, r.y + r.height)
    else
      var h := Hull(rects[..n - 1]);
      assert forall k :: 0 <= k < n - 1 ==> rects[..n - 1][k] == rects[k];
      (Min(h.0, r.x), Min(h.1, r.y), Max(h.2, r.x + r.width), Max(h.3, r.y + r.height))
  }

  /** None for no rectangles; otherwise the smallest box holding them all. */
  function FromRectangles(rects: seq<SelectionRect>): (r: Option<BoundingBox>)
    ensures r.None? <==> |rects| == 0
    ensures r.Some? ==> (forall k :: 0 <= k < |rects| ==> Encloses(r.value.minX, r.value.minY, r.value.maxX, r.value.maxY, rects[k]))
    ensures r.Some? ==> r.value.width == r.value.maxX - r.value.minX && r.value.height == r.value.maxY - r.value.minY
  {
    if |rects| == 0 then None
    else
      var h := Hull(rects);
      Some(BoundingBox(h.0, h.1, h.2, h.3, h.2 - h.0, h.3 - h.1))
  }

  /** No smaller box holds every rectangle: any box that does contains the
      bounding box. */
  lemma FromRectanglesSmallest(rects: seq<SelectionRect>, minX: real, minY: real, maxX: real, maxY: real)
    requires forall k :: 0 <= k < |rects| ==> Encloses(minX, minY, maxX, maxY, rects[k])
    requires |rects| > 0
    ensures var b := FromRectangles(rects).value;
            minX <= b.minX && minY <= b.minY && b.maxX <= maxX && b.maxY <= maxY
  {
    var h := Hull(rects);
    var k0 :| 0 <= k0 < |rects| && h.0 == rects[k0].x;
    var k1 :| 0 <= k1 < |rects| && h.1 == rects[k1].y;
    var k2 :| 0 <= k2 < |rects| && h.2 == rects[k2].x + rects[k2].width;
    var k3 :| 0 <= k3 < |rects| && h.3 == rects[k3].y + rects[k3].height;
    assert Encloses(minX, minY, maxX, maxY, rects[k0]);
    assert Encloses(minX, minY, maxX, maxY, rects[k1]);
    assert Encloses(minX, minY, maxX, maxY, rects[k2]);
    assert Encloses(minX, minY, maxX, maxY, rects[k3]);
  }

  lemma FromRectanglesExample()
    ensures FromRectangles([NewSelectionRect(10.0, 5.0, 20.0, 10.0, 0, 0, 2), NewSelectionRect(0.0, 15.0, 50.0, 10.0, 1, 0, 5)])
              == Some(BoundingBox(0.0, 5.0, 50.0, 25.0, 50.0, 20.0))
  {
  }

  // ---------------------------------------------------------------------
  // Renderer settings

  datatype SelectionRenderer = SelectionRenderer(config: SelectionRenderConfig, charWidths: seq<real>, avgCharWidth: real)

  function NewRenderer(): (r: SelectionRenderer)
    ensures r.config == DefaultConfig && r.charWidths == [] && r.avgCharWidth == 10.0
  {
    SelectionRenderer(DefaultConfig, [], 10.0)
  }

  function WithConfig(config: SelectionRenderConfig): (r: SelectionRenderer)
    ensures r.config == config && r.charWidths == [] && r.avgCharWidth == NewRenderer().avgCharWidth
  {
    SelectionRenderer(config, [], 10.0)
  }

  function Sum(ws: seq<real>): real
  {
    if |ws| == 0 then 0.0 else Sum(ws[..|ws| - 1]) + ws[|ws| - 1]
  }

  /** Stores the widths; a non-empty list also sets the average width to
      their mean, an empty one leaves it as it was. */
  function SetCharacterWidths(s: SelectionRenderer, widths: seq<real>): (r: SelectionRenderer)
    ensures r.charWidths == widths && r.config == s.config
    ensures |widths| == 0 ==> r.avgCharWidth == s.avgCharWidth
    ensures |widths| > 0 ==> r.avgCharWidth * (|widths| as real) == Sum(widths)
  {
    if |widths| == 0 then s.(charWidths := widths)
    else s.(charWidths := widths, avgCharWidth := Sum(widths) / (|widths| as real))
  }

  /** Equal widths average to that width. */
  lemma {:induction false} SumConstant(ws: seq<real>, w: real)
    requires forall k :: 0 <= k < |ws| ==> ws[k] == w
    ensures Sum(ws) == (|ws| as real) * w
  {
    if |ws| > 0 {
      SumConstant(ws[..|ws| - 1], w);
    }
  }

  lemma SetCharacterWidthsUniform(s: SelectionRenderer, widths: seq<real>, w: real)
    requires |widths| > 0 && forall k :: 0 <= k < |widths| ==> widths[k] == w
    ensures SetCharacterWidths(s, widths).avgCharWidth == w
  {
    SumConstant(widths, w);
  }

  /** The average width is never set below one unit. */
  function SetAvgCharWidth(s: SelectionRenderer, width: real): (r: SelectionRenderer)
    ensures r.avgCharWidth >= 1.0 && (r.avgCharWidth == width || r.avgCharWidth == 1.0)
    ensures width >= 1.0 ==> r.avgCharWidth == width
    ensures r.config == s.config && r.charWidths == s.charWidths
  {
    s.(avgCharWidth := Max(width, 1.0))
  }

  // ---------------------------------------------------------------------
  // Dark-mode colour

  /** Value of a hexadecimal digit, either case. */
  function HexDigit(c: char): Option<nat>
  {
    if '0' <= c <= '9' then Some(c as int - '0' as int)
    else if 'a' <= c <= 'f' then Some(c as int - 'a' as int + 10)
    else if 'A' <= c <= 'F' then Some(c as int - 'A' as int + 10)
    else None
  }

  /** A two-character field read as an unsigned hexadecimal byte; a leading
      plus sign is accepted, as the standard integer parser does. */
  function ParseHexByte(a: char, b: char): (r: Option<nat>)
    ensures r.Some? ==> r.value < 256
  {
    if a == '+' then HexDigit(b)
    else match (HexDigit(a), HexDigit(b))
      case (Some(x), Some(y)) => Some(x * 16 + y)
      case _ => None
  }

  function UpperHexDigit(d: nat): char
    requires d < 16
  {
    if d < 10 then ('0' as int + d) as char else ('A' as int + d - 10) as char
  }

  /** Two upper-case hexadecimal digits. */
  function HexByte(n: nat): (r: string)
    requires n < 256
    ensures |r| == 2
  {
    [UpperHexDigit(n / 16), UpperHexDigit(n % 16)]
  }

  /** Formatting a byte and reading it back gives the byte. */
  lemma HexByteRoundTrip(n: nat)
    requires n < 256
    ensures ParseHexByte(HexByte(n)[0], HexByte(n)[1]) == Some(n)
  {
  }

  function Lighten(c: nat): (r: nat)
    requires c < 256
    ensures r <= 255 && (r == 255 || r == c + 100) && r >= c
  {
    if c + 100 <= 255 then c + 100 else 255
  }

  predicate IsAscii(s: string)
  {
    forall i :: 0 <= i < |s| ==> s[i] as int < 0x80
  }

  /** `effective_color` slices three two-byte fields after the '#'; the colour must
      be long enough for that. */
  predicate ColorSliceable(color: string)
  {
    |color| > 0 && color[0] == '#' ==> |color| >= 7 && IsAscii(color[..7])
  }

  /** The three channels of a "#RRGGBB" colour, if they parse. */
  function Channels(color: string): (r: Option<(nat, nat, nat)>)
    requires |color| >= 7
    ensures r.Some? ==> r.value.0 < 256 && r.value.1 < 256 && r.value.2 < 256
  {
    match (ParseHexByte(color[1], color[2]), ParseHexByte(color[3], color[4]), ParseHexByte(color[5], color[6]))
    case (Some(r), Some(g), Some(b)) => Some((r, g, b))
    case _ => None
  }

  /** The highlight colour to draw with: in dark mode, unless the config
      inverts colours itself, each channel of a "#RRGGBB" colour is raised by
      100 (capped at 255) and written in upper case; in every other case the
      configured colour is used as it is. */
  function EffectiveColor(s: SelectionRenderer, isDarkMode: bool): (r: string)
    requires isDarkMode && !s.config.invertColors ==> ColorSliceable(s.config.highlightColor)
    ensures !isDarkMode || s.config.invertColors ==> r == s.config.highlightColor
  {
    var color := s.config.highlightColor;
    if isDarkMode && !s.config.invertColors && |color| > 0 && color[0] == '#' then
      match Channels(color)
      case Some((red, green, blue)) => "#" + HexByte(Lighten(red)) + HexByte(Lighten(green)) + HexByte(Lighten(blue))
      case None => color
    else color
  }

  /** In dark mode the result reads back as the lightened channels of the
      configured colour, each at least 100; a colour that does not parse is
      kept. */
  lemma EffectiveColorDark(s: SelectionRenderer)
    requires !s.config.invertColors && ColorSliceable(s.config.highlightColor)
    requires |s.config.highlightColor| > 0 && s.config.highlightColor[0] == '#'
    ensures var r := EffectiveColor(s, true);
            match Channels(s.config.highlightColor)
            case None => r == s.config.highlightColor
            case Some((red, green, blue)) =>
              |r| == 7 && r[0] == '#'
              && Channels(r) == Some((Lighten(red), Lighten(green), Lighten(blue)))
              && Lighten(red) >= 100 && Lighten(green) >= 100 && Lighten(blue) >= 100
  {
    match Channels(s.config.highlightColor)
    case None =>
    case Some((red, green, blue)) =>
      var r := EffectiveColor(s, true);
      HexByteRoundTrip(Lighten(red));
      HexByteRoundTrip(Lighten(green));
      HexByteRoundTrip(Lighten(blue));
      assert r[1..3] == HexByte(Lighten(red));
      assert r[3..5] == HexByte(Lighten(green));
      assert r[5..7] == HexByte(Lighten(blue));
  }

  /** The default blue #3399FF becomes #97FDFF in dark mode. */
  lemma EffectiveColorDefaultDark()
    ensures EffectiveColor(NewRenderer(), true) == "#97FDFF"
    ensures EffectiveColor(NewRenderer(), false) == "#3399FF"
  {
    assert Channels("#3399FF") == Some((0x33, 0x99, 0xFF));
    assert Lighten(0x33) == 0x97 && Lighten(0x99) == 0xFD && Lighten(0xFF) == 0xFF;
    assert HexByte(0x97) == "97" && HexByte(0xFD) == "FD" && HexByte(0xFF) == "FF";
  }

  datatype CaretRenderInfo = CaretRenderInfo(
    x: real, y: real, height: real, isOverstrike: bool, color: string, isVisible: bool, isFocused: bool)

  const DefaultCaret: CaretRenderInfo := CaretRenderInfo(0.0, 0.0, 20.0, false, "#000000", true, false)

  datatype SelectionHighlightStyle = Standard | Themed | Custom | CaretOnly
}
