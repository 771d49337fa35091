/**
 * The package-level vocabulary of a Word document (`ooxml/types.rs`):
 * part content types and relationship types with their string forms, and
 * the parsed paragraph, run and relationship records that the converter
 * and the serializer work on.
 */
module OoxmlTypes {
  import opened Wrappers
  import opened TextUtil

  // ---------------------------------------------------------------------
  // Content types
  // ---------------------------------------------------------------------

  datatype ContentType =
    | MainDocument | Styles | Theme | Settings | CoreProperties | AppProperties
    | WebSettings | Numbering | CustomXml | Thumbnail | Relationships
    | ImagePng | ImageJpeg | ImageGif | ImageBmp | ImageWebP | ImageTiff | ImageSvg
    | Unknown(value: string)

  const MainDocumentMime := "application/vnd.openxmlformats-officedocument.wordprocessingml.document.main+xml"
  const StylesMime := "application/vnd.openxmlformats-officedocument.wordprocessingml.styles+xml"
  const ThemeMime := "application/vnd.openxmlformats-officedocument.wordprocessingml.theme+xml"
  const SettingsMime := "application/vnd.openxmlformats-officedocument.wordprocessingml.settings+xml"
  const CorePropertiesMime := "application/vnd.openxmlformats-package.core-properties+xml"
  const AppPropertiesMime := "application/vnd.openxmlformats-officedocument.extended-properties+xml"
  const WebSettingsMime := "application/vnd.openxmlformats-officedocument.wordprocessingml.webSettings+xml"
  const NumberingMime := "application/vnd.openxmlformats-officedocument.wordprocessingml.numbering+xml"
  const PlainXmlMime := "application/xml"
  const CustomXmlMime := "application/vnd.openxmlformats-officedocument.customXmlProperties+xml"
  const RelationshipsMime := "application/vnd.openxmlformats-package.relationships+xml"

  /** Every string the parser recognises as some variant other than
      `Unknown`, grouped by the variant it names.  Thumbnail has none. */
  function Aliases(ct: ContentType): set<string>
  {
    match ct
    case MainDocument => {MainDocumentMime}
    case Styles => {StylesMime}
    case Theme => {ThemeMime}
    case Settings => {SettingsMime}
    case CoreProperties => {CorePropertiesMime}
    case AppProperties => {AppPropertiesMime}
    case WebSettings => {WebSettingsMime}
    case Numbering => {NumberingMime}
    case CustomXml => {PlainXmlMime, CustomXmlMime}
    case Thumbnail => {}
    case Relationships => {RelationshipsMime}
    case ImagePng => {"image/png"}
    case ImageJpeg => {"image/jpeg", "image/jpg"}
    case ImageGif => {"image/gif"}
    case ImageBmp => {"image/bmp"}
    case ImageWebP => {"image/webp"}
    case ImageTiff => {"image/tiff", "image/tif"}
    case ImageSvg => {"image/svg+xml"}
    case Unknown(_) => {}
  }

  /** The image MIME strings, aliases included. */
  const ImageMimes: set<string> :=
    {"image/png", "image/jpeg", "image/jpg", "image/gif", "image/bmp",
     "image/webp", "image/tiff", "image/tif", "image/svg+xml"}

  /** All recognised content-type strings. */
  const KnownMimes: set<string> :=
    {MainDocumentMime, StylesMime, ThemeMime, SettingsMime, CorePropertiesMime,
     AppPropertiesMime, WebSettingsMime, NumberingMime, PlainXmlMime, CustomXmlMime,
     RelationshipsMime} + ImageMimes

  /** `ContentType::from_string`: a recognised string names its variant; any
      other string is kept verbatim in `Unknown`. */
  function ContentTypeFromString(s: string): (r: ContentType)
    ensures r.Unknown? <==> s !in KnownMimes
    ensures r.Unknown? ==> r.value == s
    ensures !r.Unknown? ==> s in Aliases(r)
  {
    if s == MainDocumentMime then ContentType.MainDocument
    else if s == StylesMime then ContentType.Styles
    else if s == ThemeMime then ContentType.Theme
    else if s == SettingsMime then ContentType.Settings
    else if s == CorePropertiesMime then ContentType.CoreProperties
    else if s == AppPropertiesMime then ContentType.AppProperties
    else if s == WebSettingsMime then ContentType.WebSettings
    else if s == NumberingMime then ContentType.Numbering
    else if s == PlainXmlMime || s == CustomXmlMime then ContentType.CustomXml
    else if s == RelationshipsMime then ContentType.Relationships
    else if s == "image/png" then ContentType.ImagePng
    else if s == "image/jpeg" || s == "image/jpg" then ContentType.ImageJpeg
    else if s == "image/gif" then ContentType.ImageGif
    else if s == "image/bmp" then ContentType.ImageBmp
    else if s == "image/webp" then ContentType.ImageWebP
    else if s == "image/tiff" || s == "image/tif" then ContentType.ImageTiff
    else if s == "image/svg+xml" then ContentType.ImageSvg
    else ContentType.Unknown(s)
  }

  /** A string parses to a recognised variant exactly when it is one of that
      variant's aliases. */
  lemma ContentTypeFromStringIff(s: string, ct: ContentType)
    requires !ct.Unknown?
    ensures ContentTypeFromString(s) == ct <==> s in Aliases(ct)
  {
    var r := ContentTypeFromString(s);
    if s in Aliases(ct) && r != ct {
      assert s in KnownMimes;
      assert !r.Unknown?;
      assert s in Aliases(r);
      AliasesDisjoint(s, r, ct);
    }
  }

  lemma AliasesDisjoint(s: string, a: ContentType, b: ContentType)
    requires s in Aliases(a) && s in Aliases(b)
    ensures a == b
  {
  }

  /** The aliases the parser accepts besides the first-listed string. */
  lemma ContentTypeAliasExamples()
    ensures ContentTypeFromString("image/jpg") == ContentType.ImageJpeg
    ensures ContentTypeFromString("image/tif") == ContentType.ImageTiff
    ensures ContentTypeFromString("application/xml") == ContentType.CustomXml
    ensures ContentTypeFromString("image/x-emf") == ContentType.Unknown("image/x-emf")
  {
  }

  /** `ContentType::is_image`. */
  predicate IsImage(ct: ContentType)
  {
    ct.ImagePng? || ct.ImageJpeg? || ct.ImageGif? || ct.ImageBmp? || ct.ImageWebP?
    || ct.ImageTiff? || ct.ImageSvg?
  }

  /** A string parses to an image type exactly when it is one of the image
      MIME strings, and each of those begins with "image/". */
  lemma IsImageOfString(s: string)
    ensures IsImage(ContentTypeFromString(s)) <==> s in ImageMimes
    ensures s in ImageMimes ==> StartsWith(s, "image/")
  {
  }

  /** `ContentType::default_part_name`. */
  function DefaultPartName(ct: ContentType): (r: Option<string>)
    ensures r.Some? ==> StartsWith(r.value, "/") && !IsImage(ct)
  {
    match ct
    case MainDocument => Some("/word/document.xml")
    case Styles => Some("/word/styles.xml")
    case Theme => Some("/word/theme/theme1.xml")
    case Settings => Some("/word/settings.xml")
    case CoreProperties => Some("/docProps/core.xml")
    case AppProperties => Some("/docProps/app.xml")
    case WebSettings => Some("/word/webSettings.xml")
    case Numbering => Some("/word/numbering.xml")
    case _ => None
  }

  /** Distinct content types never share a part name, so the part name
      identifies the type. */
  lemma DefaultPartNameInjective(a: ContentType, b: ContentType)
    requires DefaultPartName(a).Some? && DefaultPartName(a) == DefaultPartName(b)
    ensures a == b
  {
  }

  /** Exactly the images, the relationship part, thumbnails, custom XML
      and unknown types have no default name; the eight document parts
      all have one. */
  lemma DefaultPartNameDomain(ct: ContentType)
    ensures DefaultPartName(ct).None?
      <==> IsImage(ct) || ct.Relationships? || ct.Thumbnail? || ct.CustomXml? || ct.Unknown?
  {
  }

  // ---------------------------------------------------------------------
  // Relationship types
  // ---------------------------------------------------------------------

  datatype RelationshipType =
    | Document | Styles | Theme | Settings | CoreProperties | CustomXml
    | Thumbnail | OfficeDocument | Image | Unknown(value: string)

  const OfficeDocumentRel := "http://schemas.openxmlformats.org/officeDocument/2006/relationships/officeDocument"
  const MainDocumentRel := "http://schemas.openxmlformats.org/officeDocument/2006/relationships/mainDocument"
  const StylesRel := "http://schemas.openxmlformats.org/officeDocument/2006/relationships/styles"
  const ThemeRel := "http://schemas.openxmlformats.org/officeDocument/2006/relationships/theme"
  const SettingsRel := "http://schemas.openxmlformats.org/officeDocument/2006/relationships/settings"
  const CorePropertiesRel := "http://schemas.openxmlformats.org/package/2006/relationships/metadata/core-properties"
  const CustomXmlRel := "http://schemas.openxmlformats.org/officeDocument/2006/relationships/customXml"
  const ThumbnailRel := "http://schemas.openxmlformats.org/package/2006/relationships/metadata/thumbnail"
  const ImageRel := "http://schemas.openxmlformats.org/officeDocument/2006/relationships/image"

  /** The marker that makes any other URI an image relationship. */
  const ImageMarker := "relationships/image"

  /** The eight URIs matched exactly. */
  const ExactRelUris: set<string> :=
    {OfficeDocumentRel, MainDocumentRel, StylesRel, ThemeRel, SettingsRel,
     CorePropertiesRel, CustomXmlRel, ThumbnailRel}

  /** The exact URI of each variant that has one. */
  function RelUri(rt: RelationshipType): Option<string>
  {
    match rt
    case OfficeDocument => Some(OfficeDocumentRel)
    case Document => Some(MainDocumentRel)
    case Styles => Some(StylesRel)
    case Theme => Some(ThemeRel)
    case Settings => Some(SettingsRel)
    case CoreProperties => Some(CorePropertiesRel)
    case CustomXml => Some(CustomXmlRel)
    case Thumbnail => Some(ThumbnailRel)
    case _ => None
  }

  /** `RelationshipType::from_string`: the eight exact URIs first, then any
      URI containing "relationships/image", then `Unknown` with the input. */
  function RelationshipTypeFromString(s: string): (r: RelationshipType)
    ensures s in ExactRelUris <==> RelUri(r).Some?
    ensures RelUri(r).Some? ==> RelUri(r).value == s
    ensures r.Image? <==> s !in ExactRelUris && Contains(s, ImageMarker)
    ensures r.Unknown? <==> s !in ExactRelUris && !Contains(s, ImageMarker)
    ensures r.Unknown? ==> r.value == s
  {
    if s == OfficeDocumentRel then RelationshipType.OfficeDocument
    else if s == MainDocumentRel then RelationshipType.Document
    else if s == StylesRel then RelationshipType.Styles
    else if s == ThemeRel then RelationshipType.Theme
    else if s == SettingsRel then RelationshipType.Settings
    else if s == CorePropertiesRel then RelationshipType.CoreProperties
    else if s == CustomXmlRel then RelationshipType.CustomXml
    else if s == ThumbnailRel then RelationshipType.Thumbnail
    else if Contains(s, ImageMarker) then RelationshipType.Image
    else RelationshipType.Unknown(s)
  }

  /** Every exact URI parses back to its variant, and the standard image
      relationship URI is recognised through the marker. */
  lemma RelationshipTypeRoundTrip(rt: RelationshipType)
    requires RelUri(rt).Some?
    ensures RelationshipTypeFromString(RelUri(rt).value) == rt
  {
  }

  lemma ImageRelRecognised()
    ensures RelationshipTypeFromString(ImageRel) == RelationshipType.Image
  {
    assert ImageRel[54..54 + |ImageMarker|] == ImageMarker;
    OccursContains(ImageRel, ImageMarker, 54);
  }

  /** `RelationshipType::is_image`. */
  predicate IsImageRelationship(rt: RelationshipType)
  {
    rt.Image?
  }

  /** A relationship string is an image relationship exactly when it carries
      the image marker and is not one of the exact URIs. */
  lemma IsImageRelationshipOfString(s: string)
    ensures IsImageRelationship(RelationshipTypeFromString(s)) <==> s !in ExactRelUris && Contains(s, ImageMarker)
  {
  }

  datatype Relationship = Relationship(id: string, relType: RelationshipType, target: string, targetMode: Option<string>)

  // ---------------------------------------------------------------------
  // Parsed document content
  // ---------------------------------------------------------------------

  datatype ParagraphProperties = ParagraphProperties(
    alignment: Option<string>,
    indentLeft: Option<int>,
    indentRight: Option<int>,
    indentFirstLine: Option<int>,
    spacingBefore: Option<int>,
    spacingAfter: Option<int>,
    spacingLine: Option<int>)

  function DefaultParagraphProperties(): ParagraphProperties
  {
    ParagraphProperties(None, None, None, None, None, None, None)
  }

  /** Run formatting; the font size is in half-points. */
  datatype RunProperties = RunProperties(
    bold: Option<bool>,
    italic: Option<bool>,
    underline: Option<string>,
    fontSize: Option<int>,
    fontName: Option<string>,
    color: Option<string>,
    backgroundColor: Option<string>)

  function DefaultRunProperties(): RunProperties
  {
    RunProperties(None, None, None, None, None, None, None)
  }

  datatype Run = Run(text: string, properties: RunProperties)

  datatype Paragraph = Paragraph(text: string, properties: ParagraphProperties, runs: seq<Run>)
}
