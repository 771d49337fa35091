// The package-level parts of DOCX export: relationship and content-type
// listings, and the set of parts and root relationships `serialize` builds.

module DocxPackage {
  import opened Wrappers
  import opened TextUtil
  import opened OoxmlTypes
  import opened OoxmlSerializer

  // ---------------------------------------------------------------------
  // Relationships part
  // ---------------------------------------------------------------------

  /** The type URI `generate_relationships_xml` writes: the custom-XML and
      thumbnail variants fall back to the office-document URI, and an
      unknown URI is written verbatim. */
  function RelationshipTypeUri(rt: RelationshipType): string
  {
    match rt
    case OfficeDocument => OfficeDocumentRel
    case Document => MainDocumentRel
    case Styles => StylesRel
    case Theme => ThemeRel
    case Settings => SettingsRel
    case CoreProperties => CorePropertiesRel
    case Image => ImageRel
    case Unknown(uri) => uri
    case CustomXml => OfficeDocumentRel
    case Thumbnail => OfficeDocumentRel
  }

  /** Every variant except custom-XML and thumbnail reads back as itself,
      an unknown URI provided the reader would not take it for a known one. */
  lemma RelationshipTypeUriRoundTrip(rt: RelationshipType)
    requires !rt.CustomXml? && !rt.Thumbnail?
    requires rt.Unknown? ==> rt.value !in ExactRelUris && !Contains(rt.value, ImageMarker)
    ensures RelationshipTypeFromString(RelationshipTypeUri(rt)) == rt
  {
    if rt.Image? {
      ImageRelRecognised();
    } else if !rt.Unknown? {
      RelationshipTypeRoundTrip(rt);
    }
  }

  /** The custom-XML and thumbnail relationships are written as, and so read
      back as, office-document relationships. */
  lemma RelationshipTypeUriFallback(rt: RelationshipType)
    requires rt.CustomXml? || rt.Thumbnail?
    ensures RelationshipTypeFromString(RelationshipTypeUri(rt)) == RelationshipType.OfficeDocument
  {
    RelationshipTypeRoundTrip(RelationshipType.OfficeDocument);
  }

  /** The target written for a relationship: prefixed by `base/` unless the
      base is empty. */
  function RelationshipTarget(target: string, base: string): (r: string)
    ensures |base| == 0 ==> r == target
    ensures |base| > 0 ==> StartsWith(r, base + "/") && EndsWith(r, target) && |r| == |base| + 1 + |target|
  {
    if |base| == 0 then target
    else
      AffixesOf(base + "/", "", target);
      assert base + "/" + "" + target == base + "/" + target;
      base + "/" + target
  }

  const RelIdOpen := "<Relationship Id=\""
  const TypeOpen := " Type=\""
  const TargetOpen := " Target=\""

  /** One `<Relationship Id=".." Type=".." Target=".."/>` element; the id and
      the target are escaped, the type URI is not. */
  function RelationshipElement(rel: Relationship, base: string): string
  {
    ElementBody(rel, base) + ">"
  }

  /** The element up to its closing '>'. */
  function ElementBody(rel: Relationship, base: string): string
  {
    RelIdOpen + (EscapeXmlAttr(rel.id) + ("\"" + (TypeOpen + (RelationshipTypeUri(rel.relType)
      + ("\"" + (TargetOpen + (EscapeXmlAttr(RelationshipTarget(rel.target, base)) + ("\"" + "/"))))))))
  }

  /** What a reader recovers from one element. */
  datatype RelationshipEntry = RelationshipEntry(id: string, relType: RelationshipType, target: string)

  /** A reader for one element up to its closing '>', the partner of
      `RelationshipElement`. */
  function ParseRelationshipElement(s: string): Option<RelationshipEntry>
  {
    match AfterPrefix(s, RelIdOpen)
    case None => None
    case Some(s1) =>
      match SplitAt(s1, '"')
      case None => None
      case Some(idRest) =>
        match AfterPrefix(idRest.1, TypeOpen)
        case None => None
        case Some(s2) =>
          match SplitAt(s2, '"')
          case None => None
          case Some(typeRest) =>
            match AfterPrefix(typeRest.1, TargetOpen)
            case None => None
            case Some(s3) =>
              match SplitAt(s3, '"')
              case None => None
              case Some(targetRest) =>
                if targetRest.1 == "/" then
                  Some(RelationshipEntry(UnescapeXml(idRest.0), RelationshipTypeFromString(typeRest.0),
                                         UnescapeXml(targetRest.0)))
                else None
  }

  /** The entry a reader should recover from a relationship's element. */
  function EntryOf(rel: Relationship, base: string): RelationshipEntry
  {
    RelationshipEntry(rel.id, RelationshipTypeFromString(RelationshipTypeUri(rel.relType)),
                      RelationshipTarget(rel.target, base))
  }

  /** Reading an element back gives the id, the type the reader makes of the
      written URI, and the prefixed target. */
  lemma RelationshipElementRoundTrip(rel: Relationship, base: string)
    requires '"' !in RelationshipTypeUri(rel.relType)
    ensures ParseRelationshipElement(ElementBody(rel, base)) == Some(EntryOf(rel, base))
  {
    var id := EscapeXmlAttr(rel.id);
    var uri := RelationshipTypeUri(rel.relType);
    var target := EscapeXmlAttr(RelationshipTarget(rel.target, base));
    var tail3 := target + ("\"" + "/");
    var tail2 := uri + ("\"" + (TargetOpen + tail3));
    var tail1 := id + ("\"" + (TypeOpen + tail2));
    AfterPrefixOf(RelIdOpen, tail1);
    SplitAtOf(id, '"', TypeOpen + tail2);
    AfterPrefixOf(TypeOpen, tail2);
    SplitAtOf(uri, '"', TargetOpen + tail3);
    AfterPrefixOf(TargetOpen, tail3);
    SplitAtOf(target, '"', "/");
    EscapeXmlAttrRoundTrip(rel.id);
    EscapeXmlAttrRoundTrip(RelationshipTarget(rel.target, base));
  }

  /** The relationship elements, one per relationship and in order. */
  function RelationshipElements(rels: seq<Relationship>, base: string): string
  {
    if |rels| == 0 then "" else RelationshipElement(rels[0], base) + RelationshipElements(rels[1..], base)
  }

  const RelationshipsNamespace := "http://schemas.openxmlformats.org/package/2006/relationships"
  const RelationshipsOpenTag := "<Relationships xmlns=\"" + RelationshipsNamespace + "\">"

  /** `generate_relationships_xml`. */
  function RelationshipsXml(rels: seq<Relationship>, base: string): (r: string)
    ensures StartsWith(r, XmlDeclaration + RelationshipsOpenTag) && EndsWith(r, "</Relationships>")
  {
    AffixesOf(XmlDeclaration + RelationshipsOpenTag, RelationshipElements(rels, base), "</Relationships>");
    XmlDeclaration + RelationshipsOpenTag + RelationshipElements(rels, base) + "</Relationships>"
  }


  /** A URI the writer can put between quotes without ending the element. */
  predicate WritableUri(uri: string)
  {
    '"' !in uri && '>' !in uri
  }

  /** An element's only '>' is its last character. */
  lemma ElementSplit(rel: Relationship, base: string, rest: string)
    requires WritableUri(RelationshipTypeUri(rel.relType))
    ensures SplitAt(RelationshipElement(rel, base) + rest, '>') == Some((ElementBody(rel, base), rest))
  {
    assert '>' !in RelIdOpen && '>' !in TypeOpen && '>' !in TargetOpen;
    SplitAtOf(ElementBody(rel, base), '>', rest);
    assert RelationshipElement(rel, base) + rest == ElementBody(rel, base) + (">" + rest);
  }

  /** A reader for a whole list of elements. */
  function ParseRelationshipList(s: string): Option<seq<RelationshipEntry>>
    decreases |s|
  {
    if |s| == 0 then Some([])
    else
      match SplitAt(s, '>')
      case None => None
      case Some(p) =>
        match (ParseRelationshipElement(p.0), ParseRelationshipList(p.1))
        case (Some(e), Some(es)) => Some([e] + es)
        case _ => None
  }

  /** The entries for a list of relationships, in order. */
  function EntriesOf(rels: seq<Relationship>, base: string): (r: seq<RelationshipEntry>)
    ensures |r| == |rels|
    ensures forall i :: 0 <= i < |rels| ==> r[i] == EntryOf(rels[i], base)
  {
    if |rels| == 0 then [] else [EntryOf(rels[0], base)] + EntriesOf(rels[1..], base)
  }

  /** The list written for `rels` reads back as one entry per relationship,
      in order. */
  lemma {:induction false} RelationshipElementsRoundTrip(rels: seq<Relationship>, base: string)
    requires forall i :: 0 <= i < |rels| ==> WritableUri(RelationshipTypeUri(rels[i].relType))
    ensures ParseRelationshipList(RelationshipElements(rels, base)) == Some(EntriesOf(rels, base))
  {
    if |rels| > 0 {
      var rest := RelationshipElements(rels[1..], base);
      ElementSplit(rels[0], base, rest);
      RelationshipElementRoundTrip(rels[0], base);
      RelationshipElementsRoundTrip(rels[1..], base);
      assert |RelationshipElements(rels, base)| > 0;
    }
  }

  // ---------------------------------------------------------------------
  // Content types part
  // ---------------------------------------------------------------------

  /** The theme content type defined by ECMA-376, which the writer uses. */
  const StandardThemeMime := "application/vnd.openxmlformats-officedocument.theme+xml"

  /** The content type string `generate_content_types_xml` writes for each
      variant; the rest fall back to "application/xml". */
  function ContentTypeString(ct: ContentType): string
  {
    match ct
    case MainDocument => MainDocumentMime
    case Styles => StylesMime
    case Theme => StandardThemeMime
    case Settings => SettingsMime
    case CoreProperties => CorePropertiesMime
    case AppProperties => AppPropertiesMime
    case Numbering => NumberingMime
    case WebSettings => WebSettingsMime
    case ImagePng => "image/png"
    case ImageJpeg => "image/jpeg"
    case ImageGif => "image/gif"
    case ImageBmp => "image/bmp"
    case ImageSvg => "image/svg+xml"
    case _ => PlainXmlMime
  }

  /** The variants whose written string names them in the parser: the
      twelve the writer lists, and custom XML through "application/xml". */
  predicate WrittenExactly(ct: ContentType)
  {
    ct.MainDocument? || ct.Styles? || ct.Settings? || ct.CoreProperties? || ct.AppProperties?
    || ct.Numbering? || ct.WebSettings? || ct.ImagePng? || ct.ImageJpeg? || ct.ImageGif?
    || ct.ImageBmp? || ct.ImageSvg? || ct.CustomXml?
  }

  lemma StandardThemeMimeUnknown()
    ensures StandardThemeMime !in KnownMimes
  {
  }

  /** What `ContentType::from_string` makes of each written string: the
      variant itself when it is written exactly, custom XML for the
      fallback, and for the theme an unknown type. */
  lemma ContentTypeStringReadBack(ct: ContentType)
    ensures ContentTypeFromString(ContentTypeString(ct))
            == if ct.Theme? then ContentType.Unknown(StandardThemeMime)
               else if WrittenExactly(ct) then ct
               else ContentType.CustomXml
  {
    var s := ContentTypeString(ct);
    if ct.Theme? {
      StandardThemeMimeUnknown();
    } else if WrittenExactly(ct) {
      assert s in Aliases(ct);
      ContentTypeFromStringIff(s, ct);
    } else {
      assert s in Aliases(ContentType.CustomXml);
      ContentTypeFromStringIff(s, ContentType.CustomXml);
    }
  }

  /** The theme part's type does not read back as a theme. */
  lemma ThemeTypeNotRecognised()
    ensures ContentTypeFromString(ContentTypeString(ContentType.Theme)).Unknown?
  {
    ContentTypeStringReadBack(ContentType.Theme);
  }

  /** A reader that also accepts the standard theme type, so that every
      type the writer produces reads back. */
  function ReadContentTypeCorrected(s: string): (r: ContentType)
    ensures s == StandardThemeMime ==> r == ContentType.Theme
    ensures s != StandardThemeMime ==> r == ContentTypeFromString(s)
  {
    if s == StandardThemeMime then ContentType.Theme else ContentTypeFromString(s)
  }

  /** With the corrected reader, the theme round-trips as well. */
  lemma ReadContentTypeRoundTrip(ct: ContentType)
    ensures ReadContentTypeCorrected(ContentTypeString(ct))
            == if WrittenExactly(ct) || ct.Theme? then ct else ContentType.CustomXml
  {
    ContentTypeStringReadBack(ct);
    if !ct.Theme? {
      assert ContentTypeString(ct) != StandardThemeMime by {
        assert ContentTypeFromString(ContentTypeString(ct)) != ContentType.Unknown(StandardThemeMime);
      }
    }
  }

  const OverrideOpen := "<Override PartName=\""
  const ContentTypeOpen := " ContentType=\""

  /** One `<Override PartName=".." ContentType=".."/>` element; the part
      name is written unescaped. */
  function OverrideElement(name: string, ct: ContentType): string
  {
    OverrideOpen + name + "\"" + ContentTypeOpen + ContentTypeString(ct) + "\"/>"
  }

  /** The override elements, in the order of `entries`, for the part names
      that start with '/'. */
  function OverrideList(entries: seq<(string, ContentType)>): (r: seq<string>)
    ensures forall e :: e in entries && StartsWith(e.0, "/") ==> OverrideElement(e.0, e.1) in r
    ensures forall x :: x in r ==> exists e :: e in entries && StartsWith(e.0, "/") && x == OverrideElement(e.0, e.1)
    ensures |r| <= |entries|
  {
    if |entries| == 0 then []
    else
      var rest := OverrideList(entries[1..]);
      assert forall e :: e in entries ==> e == entries[0] || e in entries[1..];
      if StartsWith(entries[0].0, "/") then [OverrideElement(entries[0].0, entries[0].1)] + rest else rest
  }

  function Concat(xs: seq<string>): string
  {
    if |xs| == 0 then "" else xs[0] + Concat(xs[1..])
  }

  const ContentTypesNamespace := "http://schemas.openxmlformats.org/package/2006/content-types"
  const TypesOpenTag := "<Types xmlns=\"" + ContentTypesNamespace + "\">"
  const DefaultExtensions :=
    "<Default Extension=\"rels\" ContentType=\"" + RelationshipsMime + "\"/>"
    + "<Default Extension=\"xml\" ContentType=\"" + PlainXmlMime + "\"/>"

  /** `generate_content_types_xml`, with the map given as its iteration
      order. */
  function ContentTypesXml(entries: seq<(string, ContentType)>): (r: string)
    ensures StartsWith(r, XmlDeclaration + TypesOpenTag + DefaultExtensions) && EndsWith(r, "</Types>")
  {
    AffixesOf(XmlDeclaration + TypesOpenTag + DefaultExtensions, Concat(OverrideList(entries)), "</Types>");
    XmlDeclaration + TypesOpenTag + DefaultExtensions + Concat(OverrideList(entries)) + "</Types>"
  }

  // ---------------------------------------------------------------------
  // The serialized package
  // ---------------------------------------------------------------------

  datatype ExportFormat = Docx | Docm | FlatOxml

  datatype ExportOptions = ExportOptions(format: ExportFormat, includeImages: bool, includeStyles: bool, includeTheme: bool)

  /** `ExportOptions::default`: DOCX with images, styles and theme. */
  const DefaultExportOptions := ExportOptions(Docx, true, true, true)

  datatype ThemeFonts = ThemeFonts(majorFont: string, minorFont: string, symbolFont: string)

  /** A theme; its colour map is not read by the writer, which emits a fixed
      Office palette. */
  datatype Theme = Theme(name: string, fonts: ThemeFonts)

  /** The document handed to the writer; the style map is given in its
      iteration order. */
  datatype WordDocument = WordDocument(text: string, paragraphs: seq<Paragraph>, styles: seq<Style>, theme: Option<Theme>)

  /** A part of the package.  The data is given for the document and styles
      parts; for the core, app and theme parts it is `None`. */
  datatype SerializedPart = SerializedPart(path: string, contentType: ContentType, data: Option<string>)

  datatype SerializedDocument = SerializedDocument(
    parts: seq<SerializedPart>,
    rootRelationships: seq<Relationship>,
    contentTypes: map<string, ContentType>)

  const ExtendedPropertiesRel := "http://schemas.openxmlformats.org/officeDocument/2006/relationships/extended-properties"

  /** The package-level relationships `serialize` lists. */
  function RootRelationships(includeStyles: bool): seq<Relationship>
  {
    [Relationship("rId1", RelationshipType.OfficeDocument, "word/document.xml", None)]
    + (if includeStyles then [Relationship("rId2", RelationshipType.Styles, "word/styles.xml", None)] else [])
    + [Relationship("rId3", RelationshipType.CoreProperties, "docProps/core.xml", None),
       Relationship("rId4", RelationshipType.Unknown(ExtendedPropertiesRel), "docProps/app.xml", None)]
  }

  /** The first relationship with the given id. */
  function RelationshipById(rels: seq<Relationship>, id: string): (r: Option<Relationship>)
    ensures r.Some? ==> r.value in rels && r.value.id == id
  {
    if |rels| == 0 then None
    else if rels[0].id == id then Some(rels[0])
    else RelationshipById(rels[1..], id)
  }

  /** The parts `serialize` produces, in order, given the data of the
      document and styles parts and whether the optional parts are written. */
  function PackageParts(documentData: string, stylesData: string, withStyles: bool, withTheme: bool): seq<SerializedPart>
  {
    [SerializedPart("/word/document.xml", ContentType.MainDocument, Some(documentData))]
    + (if withStyles then [SerializedPart("/word/styles.xml", ContentType.Styles, Some(stylesData))] else [])
    + [SerializedPart("/docProps/core.xml", ContentType.CoreProperties, None),
       SerializedPart("/docProps/app.xml", ContentType.AppProperties, None)]
    + (if withTheme then [SerializedPart("/word/theme/theme1.xml", ContentType.Theme, None)] else [])
  }

  function SerializeParts(doc: WordDocument, options: ExportOptions): seq<SerializedPart>
  {
    PackageParts(DocumentXml(doc.paragraphs), StylesXml(doc.styles), options.includeStyles,
                 options.includeTheme && doc.theme.Some?)
  }

  /** The content-type map, filled in the order `serialize` inserts: one
      entry per part written, then the two relationship entries. */
  function PackageTypes(withStyles: bool, withTheme: bool): map<string, ContentType>
  {
    var m0 := map["/word/document.xml" := ContentType.MainDocument];
    var m1 := if withStyles then m0["/word/styles.xml" := ContentType.Styles] else m0;
    var m2 := m1["/docProps/core.xml" := ContentType.CoreProperties]["/docProps/app.xml" := ContentType.AppProperties];
    var m3 := if withTheme then m2["/word/theme/theme1.xml" := ContentType.Theme] else m2;
    m3["/rels" := ContentType.Relationships][".rels" := ContentType.Relationships]
  }

  /** The main document part is registered whatever else is written. */
  lemma DocumentRegistered(withStyles: bool, withTheme: bool)
    ensures var m := PackageTypes(withStyles, withTheme);
      "/word/document.xml" in m && m["/word/document.xml"] == ContentType.MainDocument
  {
  }

  /** `serialize`. */
  function Serialize(doc: WordDocument, options: ExportOptions): (r: SerializedDocument)
    ensures |r.parts| >= 1
    ensures r.parts[0] == SerializedPart("/word/document.xml", ContentType.MainDocument, Some(DocumentXml(doc.paragraphs)))
    ensures "/word/document.xml" in r.contentTypes && r.contentTypes["/word/document.xml"] == ContentType.MainDocument
  {
    DocumentRegistered(options.includeStyles, options.includeTheme && doc.theme.Some?);
    SerializedDocument(SerializeParts(doc, options), RootRelationships(options.includeStyles),
                       PackageTypes(options.includeStyles, options.includeTheme && doc.theme.Some?))
  }

  /** rId1, rId3 and rId4 are always present with their fixed targets, and
      rId2 (the styles part) exactly when styles are included. */
  lemma RootRelationshipIds(doc: WordDocument, options: ExportOptions)
    ensures var rels := Serialize(doc, options).rootRelationships;
      && RelationshipById(rels, "rId1") == Some(Relationship("rId1", RelationshipType.OfficeDocument, "word/document.xml", None))
      && RelationshipById(rels, "rId3") == Some(Relationship("rId3", RelationshipType.CoreProperties, "docProps/core.xml", None))
      && RelationshipById(rels, "rId4") == Some(Relationship("rId4", RelationshipType.Unknown(ExtendedPropertiesRel), "docProps/app.xml", None))
      && (RelationshipById(rels, "rId2").Some? <==> options.includeStyles)
      && (options.includeStyles ==> RelationshipById(rels, "rId2").value.target == "word/styles.xml")
  {
    var rels := Serialize(doc, options).rootRelationships;
    assert rels == RootRelationships(options.includeStyles);
    RootRelationshipsCases(options.includeStyles);
  }

  lemma RootRelationshipsCases(includeStyles: bool)
    ensures var rels := RootRelationships(includeStyles);
      && RelationshipById(rels, "rId1") == Some(Relationship("rId1", RelationshipType.OfficeDocument, "word/document.xml", None))
      && RelationshipById(rels, "rId3") == Some(Relationship("rId3", RelationshipType.CoreProperties, "docProps/core.xml", None))
      && RelationshipById(rels, "rId4") == Some(Relationship("rId4", RelationshipType.Unknown(ExtendedPropertiesRel), "docProps/app.xml", None))
      && (RelationshipById(rels, "rId2").Some? <==> includeStyles)
      && (includeStyles ==> RelationshipById(rels, "rId2").value.target == "word/styles.xml")
  {
    var r1 := Relationship("rId1", RelationshipType.OfficeDocument, "word/document.xml", None);
    var r2 := Relationship("rId2", RelationshipType.Styles, "word/styles.xml", None);
    var r3 := Relationship("rId3", RelationshipType.CoreProperties, "docProps/core.xml", None);
    var r4 := Relationship("rId4", RelationshipType.Unknown(ExtendedPropertiesRel), "docProps/app.xml", None);
    var tail := [r3, r4];
    assert RelationshipById(tail, "rId3") == Some(r3);
    assert RelationshipById(tail, "rId4") == Some(r4) by { assert tail[1..] == [r4]; }
    assert RelationshipById(tail, "rId2") == None by { assert tail[1..] == [r4]; assert tail[1..][1..] == []; }
    if includeStyles {
      var rels := [r1, r2] + tail;
      assert RootRelationships(includeStyles) == rels;
      assert rels[1..] == [r2] + tail;
      assert ([r2] + tail)[1..] == tail;
    } else {
      var rels := [r1] + tail;
      assert RootRelationships(includeStyles) == rels;
      assert rels[1..] == tail;
    }
  }

  /** Every part of a package is registered under its path with its own
      type, and the optional parts are registered exactly when written. */
  lemma PackageTypesOf(d: string, st: string, withStyles: bool, withTheme: bool)
    ensures var parts := PackageParts(d, st, withStyles, withTheme);
      var m := PackageTypes(withStyles, withTheme);
      && (forall i :: 0 <= i < |parts| ==> parts[i].path in m && m[parts[i].path] == parts[i].contentType)
      && ("/word/styles.xml" in m <==> withStyles)
      && (withStyles ==> parts[1] == SerializedPart("/word/styles.xml", ContentType.Styles, Some(st)))
      && ("/word/theme/theme1.xml" in m <==> withTheme)
  {
    var parts := PackageParts(d, st, withStyles, withTheme);
    var m := PackageTypes(withStyles, withTheme);
    var head := [SerializedPart("/word/document.xml", ContentType.MainDocument, Some(d))]
      + (if withStyles then [SerializedPart("/word/styles.xml", ContentType.Styles, Some(st))] else []);
    var core := [SerializedPart("/docProps/core.xml", ContentType.CoreProperties, None),
                 SerializedPart("/docProps/app.xml", ContentType.AppProperties, None)];
    var theme := if withTheme then [SerializedPart("/word/theme/theme1.xml", ContentType.Theme, None)] else [];
    assert parts == head + core + theme;
    forall i | 0 <= i < |parts|
      ensures parts[i].path in m && m[parts[i].path] == parts[i].contentType
    {
      if i < |head| {
        assert parts[i] == head[i];
      } else if i < |head| + 2 {
        assert parts[i] == core[i - |head|];
      } else {
        assert parts[i] == theme[i - |head| - 2];
      }
    }
  }

  /** Every part is registered in the content-type map under its own
      type. */
  lemma PartsRegistered(doc: WordDocument, options: ExportOptions)
    ensures var sd := Serialize(doc, options);
      forall i :: 0 <= i < |sd.parts| ==> sd.parts[i].path in sd.contentTypes && sd.contentTypes[sd.parts[i].path] == sd.parts[i].contentType
  {
    PackageTypesOf(DocumentXml(doc.paragraphs), StylesXml(doc.styles), options.includeStyles,
                   options.includeTheme && doc.theme.Some?);
  }

  /** The styles part is written, with the serialized styles as its data,
      exactly when styles are included. */
  lemma StylesPartIff(doc: WordDocument, options: ExportOptions)
    ensures var sd := Serialize(doc, options);
      && ("/word/styles.xml" in sd.contentTypes <==> options.includeStyles)
      && (options.includeStyles ==> sd.parts[1] == SerializedPart("/word/styles.xml", ContentType.Styles, Some(StylesXml(doc.styles))))
  {
    var d := DocumentXml(doc.paragraphs);
    var st := StylesXml(doc.styles);
    var withTheme := options.includeTheme && doc.theme.Some?;
    PackageTypesOf(d, st, options.includeStyles, withTheme);
    assert Serialize(doc, options).parts == PackageParts(d, st, options.includeStyles, withTheme);
  }

  /** The theme part is written exactly when the theme is requested and the
      document has one. */
  lemma ThemePartIff(doc: WordDocument, options: ExportOptions)
    ensures var sd := Serialize(doc, options);
      "/word/theme/theme1.xml" in sd.contentTypes <==> options.includeTheme && doc.theme.Some?
  {
    PackageTypesOf(DocumentXml(doc.paragraphs), StylesXml(doc.styles), options.includeStyles,
                   options.includeTheme && doc.theme.Some?);
  }

  /** The main document part always comes first and carries the serialized
      paragraphs. */
  lemma DocumentPartData(doc: WordDocument, options: ExportOptions)
    ensures var sd := Serialize(doc, options);
      && sd.parts[0] == SerializedPart("/word/document.xml", ContentType.MainDocument, Some(DocumentXml(doc.paragraphs)))
      && "/word/document.xml" in sd.contentTypes
      && sd.contentTypes["/word/document.xml"] == ContentType.MainDocument
  {
    PartsRegistered(doc, options);
  }

  /** One image relationship per image, numbered from 1. */
  function ImageRelationships(images: seq<string>, from: nat): (r: seq<Relationship>)
    ensures |r| == |images|
    ensures forall i :: 0 <= i < |images| ==>
      r[i] == Relationship("rIdImage" + NatToString(from + i + 1), RelationshipType.Image, "media/" + images[i], None)
  {
    if |images| == 0 then []
    else [Relationship("rIdImage" + NatToString(from + 1), RelationshipType.Image, "media/" + images[0], None)]
         + ImageRelationships(images[1..], from + 1)
  }

  /** `generate_document_relationships`: the theme relationship when the
      theme part is registered, then the images (paths under `media/`). */
  function DocumentRelationships(sd: SerializedDocument, images: seq<string>): seq<Relationship>
  {
    (if "/word/theme/theme1.xml" in sd.contentTypes
     then [Relationship("rIdTheme", RelationshipType.Theme, "../theme/theme1.xml", None)] else [])
    + ImageRelationships(images, 0)
  }

  /** The document's relationship list starts with the theme exactly when
      the theme part is registered, and the images follow in order. */
  lemma DocumentRelationshipsShape(sd: SerializedDocument, images: seq<string>)
    ensures var rels := DocumentRelationships(sd, images);
      var k := if "/word/theme/theme1.xml" in sd.contentTypes then 1 else 0;
      && |rels| == k + |images|
      && (k == 1 ==> rels[0] == Relationship("rIdTheme", RelationshipType.Theme, "../theme/theme1.xml", None))
      && forall i :: k <= i < |rels| ==> rels[i].id == "rIdImage" + NatToString(i - k + 1)
  {
    var rels := DocumentRelationships(sd, images);
    var k := if "/word/theme/theme1.xml" in sd.contentTypes then 1 else 0;
    forall i | k <= i < |rels|
      ensures rels[i].id == "rIdImage" + NatToString(i - k + 1)
    {
      assert rels[i] == ImageRelationships(images, 0)[i - k];
    }
  }

  /** For a serialized document: the theme relationship is present exactly
      when the theme is requested and the document has one. */
  lemma DocumentRelationshipsOf(doc: WordDocument, options: ExportOptions, images: seq<string>)
    ensures var rels := DocumentRelationships(Serialize(doc, options), images);
      var k := if options.includeTheme && doc.theme.Some? then 1 else 0;
      && |rels| == k + |images|
      && (k == 1 ==> rels[0].id == "rIdTheme")
  {
    ThemePartIff(doc, options);
    DocumentRelationshipsShape(Serialize(doc, options), images);
  }

  /** `entries` lists the map `m`, in some order. */
  predicate Enumerates(entries: seq<(string, ContentType)>, m: map<string, ContentType>)
  {
    && (forall e :: e in entries ==> e.0 in m && m[e.0] == e.1)
    && (forall k :: k in m ==> (k, m[k]) in entries)
  }

  /** Whatever order the map is listed in, the content-types part overrides
      the main document and, when written, the styles part under their own
      types. */
  lemma PackageOverrides(withStyles: bool, withTheme: bool, entries: seq<(string, ContentType)>)
    requires Enumerates(entries, PackageTypes(withStyles, withTheme))
    ensures OverrideElement("/word/document.xml", ContentType.MainDocument) in OverrideList(entries)
    ensures withStyles ==> OverrideElement("/word/styles.xml", ContentType.Styles) in OverrideList(entries)
    ensures withTheme ==> OverrideElement("/word/theme/theme1.xml", ContentType.Theme) in OverrideList(entries)
  {
    var m := PackageTypes(withStyles, withTheme);
    assert ("/word/document.xml", ContentType.MainDocument) in entries by {
      assert "/word/document.xml" in m;
    }
    assert StartsWith("/word/document.xml", "/");
    if withStyles {
      assert ("/word/styles.xml", ContentType.Styles) in entries by {
        assert "/word/styles.xml" in m;
      }
      assert StartsWith("/word/styles.xml", "/");
    }
    if withTheme {
      assert ("/word/theme/theme1.xml", ContentType.Theme) in entries by {
        assert "/word/theme/theme1.xml" in m;
      }
      assert StartsWith("/word/theme/theme1.xml", "/");
    }
  }
}
