/**
 * Styles (`style.rs`): character and paragraph styles, the style map,
 * formatting merges and inheritance along `based_on` chains.
 *
 * The attribute records of the piece tree are modelled as maps from
 * attribute to value, an absent key standing for `None`.  Attributes
 * that `merge_formatting` does not name are `OtherAttr`/`OtherPara`.
 */
module Style {
  import opened Wrappers

  // ---------------------------------------------------------------
  // Attributes and their merges
  // ---------------------------------------------------------------

  datatype Attr =
    | Bold | Italic | Underline | Strikethrough | DoubleUnderline
    | FontSize | FontFamily | FontWeight | FontStretch
    | Foreground | Background | Highlight
    | Superscript | Subscript | SmallCaps | AllCaps
    | Shadow | Outline | Emboss | Imprint
    | CharacterSpacing | CharacterScale | Kerning | PositionOffset | BaselineOffset
    | Border | RubyText | RubyPosition | Language | SpellingErrors
    | OtherAttr(name: string)

  datatype Value = Flag(flag: bool) | Number(number: int) | Amount(amount: real) | Text(text: string)

  type Attrs = map<Attr, Value>

  /** The attributes `merge_formatting` copies from the override. */
  predicate Merged(a: Attr)
  {
    !a.OtherAttr?
  }

  /** `merge_formatting`: every named attribute the override sets wins; everything else is the base's. */
  function MergeFormatting(base: Attrs, override: Attrs): (r: Attrs)
    ensures forall a :: a in r <==> (Merged(a) && a in override) || a in base
  {
    map a | a in base.Keys + override.Keys && ((Merged(a) && a in override) || a in base) ::
      if Merged(a) && a in override then override[a] else base[a]
  }

  /** The value a merge gives each attribute. */
  lemma MergeFormattingValues(base: Attrs, override: Attrs, a: Attr)
    ensures Merged(a) && a in override ==> MergeFormatting(base, override)[a] == override[a]
    ensures (!Merged(a) || a !in override) && a in base ==> MergeFormatting(base, override)[a] == base[a]
  {
  }

  /** When only named attributes occur, a merge is map union with the override winning. */
  lemma MergeFormattingIsUnion(base: Attrs, override: Attrs)
    requires forall a | a in override :: Merged(a)
    ensures MergeFormatting(base, override) == base + override
  {
  }

  /** Merging nothing in changes nothing; merging a set of attributes into itself changes nothing. */
  lemma MergeFormattingNeutral(base: Attrs)
    ensures MergeFormatting(base, map[]) == base
    ensures MergeFormatting(base, base) == base
  {
  }

  /** Merges compose: merging in two overrides one after the other is merging in their merge. */
  lemma MergeFormattingAssociative(a: Attrs, b: Attrs, c: Attrs)
    ensures MergeFormatting(MergeFormatting(a, b), c) == MergeFormatting(a, MergeFormatting(b, c))
  {
  }

  datatype ParaField =
    | Alignment | LeftIndent | RightIndent | FirstLineIndent
    | SpaceBefore | SpaceAfter | LineSpacing | LineSpacingRule
    | OtherPara(name: string)

  type ParaProps = map<ParaField, Value>

  /** The fields `merge_paragraph_formatting` takes from the override. */
  predicate Listed(f: ParaField)
  {
    !f.OtherPara?
  }

  /**
   * `merge_paragraph_formatting`: the eight listed fields are the
   * override's whether it sets them or not; the rest are the base's.
   */
  function MergeParagraph(base: ParaProps, override: ParaProps): (r: ParaProps)
    ensures forall f :: f in r <==> (if Listed(f) then f in override else f in base)
  {
    map f | f in base.Keys + override.Keys && (if Listed(f) then f in override else f in base) ::
      if Listed(f) then override[f] else base[f]
  }

  /**
   * Unlike character merges, an override that leaves a listed field
   * unset clears what the base set: the listed fields of a merge are
   * exactly the override's, the others exactly the base's.
   */
  lemma MergeParagraphFields(base: ParaProps, override: ParaProps, f: ParaField)
    ensures Listed(f) ==> (f in MergeParagraph(base, override) <==> f in override)
    ensures Listed(f) && f in override ==> MergeParagraph(base, override)[f] == override[f]
    ensures !Listed(f) && f in base ==> MergeParagraph(base, override)[f] == base[f]
  {
  }

  lemma MergeParagraphAssociative(a: ParaProps, b: ParaProps, c: ParaProps)
    ensures MergeParagraph(MergeParagraph(a, b), c) == MergeParagraph(a, MergeParagraph(b, c))
  {
  }

  // ---------------------------------------------------------------
  // Styles and the style map
  // ---------------------------------------------------------------

  datatype StyleType = ParagraphType | CharacterType | Linked | Table | NumberType | Custom(name: string)

  datatype CharacterStyle = CharacterStyle(
    styleId: string, name: string, basedOn: Option<string>, formatting: Attrs,
    hidden: bool, locked: bool, priority: nat, quickStyle: bool)

  datatype ParagraphStyle = ParagraphStyle(
    styleId: string, name: string, basedOn: Option<string>, link: Option<string>, formatting: ParaProps,
    characterStyleId: Option<string>, hidden: bool, locked: bool, priority: nat, quickStyle: bool,
    styleType: StyleType)

  function NewCharacterStyle(styleId: string): (r: CharacterStyle)
    ensures r.styleId == styleId && r.formatting == map[] && r.basedOn.None?
  {
    CharacterStyle(styleId, "", None, map[], false, false, 0, false)
  }

  function NewParagraphStyle(styleId: string): (r: ParagraphStyle)
    ensures r.styleId == styleId && r.formatting == map[] && r.basedOn.None? && r.styleType == ParagraphType
  {
    ParagraphStyle(styleId, "", None, None, map[], None, false, false, 0, false, ParagraphType)
  }

  /** The document's default font; the size is in half-points. */
  datatype DefaultFont = DefaultFont(fontName: string, fontSize: nat, fontColor: Option<string>, bold: bool, italic: bool)

  datatype StyleMap = StyleMap(
    characterStyles: map<string, CharacterStyle>,
    paragraphStyles: map<string, ParagraphStyle>,
    defaultCharacterStyle: Option<string>,
    defaultParagraphStyle: Option<string>,
    defaultFont: Option<DefaultFont>)

  const EmptyStyleMap := StyleMap(map[], map[], None, None, None)

  /** `add_character_style`: stored under its own id, replacing any style with that id. */
  function AddCharacterStyle(m: StyleMap, s: CharacterStyle): (r: StyleMap)
    ensures r.characterStyles.Keys == m.characterStyles.Keys + {s.styleId}
    ensures r.paragraphStyles == m.paragraphStyles
  {
    m.(characterStyles := m.characterStyles[s.styleId := s])
  }

  function AddParagraphStyle(m: StyleMap, s: ParagraphStyle): (r: StyleMap)
    ensures r.paragraphStyles.Keys == m.paragraphStyles.Keys + {s.styleId}
    ensures r.characterStyles == m.characterStyles
  {
    m.(paragraphStyles := m.paragraphStyles[s.styleId := s])
  }

  function GetCharacterStyle(m: StyleMap, styleId: string): (r: Option<CharacterStyle>)
    ensures r.Some? <==> styleId in m.characterStyles
  {
    if styleId in m.characterStyles then Some(m.characterStyles[styleId]) else None
  }

  function GetParagraphStyle(m: StyleMap, styleId: string): (r: Option<ParagraphStyle>)
    ensures r.Some? <==> styleId in m.paragraphStyles
  {
    if styleId in m.paragraphStyles then Some(m.paragraphStyles[styleId]) else None
  }

  /** A style just added is found under its id, and every other lookup is unchanged. */
  lemma AddThenGet(m: StyleMap, c: CharacterStyle, p: ParagraphStyle, id: string)
    ensures GetCharacterStyle(AddCharacterStyle(m, c), c.styleId) == Some(c)
    ensures GetParagraphStyle(AddParagraphStyle(m, p), p.styleId) == Some(p)
    ensures id != c.styleId ==> GetCharacterStyle(AddCharacterStyle(m, c), id) == GetCharacterStyle(m, id)
    ensures id != p.styleId ==> GetParagraphStyle(AddParagraphStyle(m, p), id) == GetParagraphStyle(m, id)
  {
  }

  function SetDefaultCharacterStyle(m: StyleMap, styleId: string): (r: StyleMap)
    ensures r.defaultCharacterStyle == Some(styleId) && r.characterStyles == m.characterStyles
  {
    m.(defaultCharacterStyle := Some(styleId))
  }

  function SetDefaultParagraphStyle(m: StyleMap, styleId: string): (r: StyleMap)
    ensures r.defaultParagraphStyle == Some(styleId) && r.paragraphStyles == m.paragraphStyles
  {
    m.(defaultParagraphStyle := Some(styleId))
  }

  // ---------------------------------------------------------------
  // Inheritance
  // ---------------------------------------------------------------

  /** Each style's parent, by id. */
  function CharParents(m: StyleMap): map<string, Option<string>>
  {
    map id | id in m.characterStyles :: m.characterStyles[id].basedOn
  }

  function ParaParents(m: StyleMap): map<string, Option<string>>
  {
    map id | id in m.paragraphStyles :: m.paragraphStyles[id].basedOn
  }

  /**
   * The `based_on` chain from `from` reaches, within `n` steps, a style
   * with no parent or a parent that is not in the map.  `get_effective_formatting`
   * follows the chain by recursion and overflows its stack on a cycle.
   */
  predicate ChainEnds(parents: map<string, Option<string>>, from: Option<string>, n: nat)
    decreases n
  {
    from.None? || from.value !in parents || (n > 0 && ChainEnds(parents, parents[from.value], n - 1))
  }

  /** A style that is its own parent never reaches the end of its chain. */
  lemma {:induction false} SelfParentNeverEnds(parents: map<string, Option<string>>, id: string, n: nat)
    requires id in parents && parents[id] == Some(id)
    ensures !ChainEnds(parents, Some(id), n)
    decreases n
  {
    if n > 0 {
      SelfParentNeverEnds(parents, id, n - 1);
    }
  }

  lemma {:induction false} ChainEndsLonger(parents: map<string, Option<string>>, from: Option<string>, n: nat, n': nat)
    requires ChainEnds(parents, from, n) && n <= n'
    ensures ChainEnds(parents, from, n')
    decreases n
  {
    if from.Some? && from.value in parents {
      ChainEndsLonger(parents, parents[from.value], n - 1, n' - 1);
    }
  }

  /** Every character style's chain ends (no `based_on` cycle). */
  predicate CharAcyclic(m: StyleMap)
  {
    forall id | id in m.characterStyles :: ChainEnds(CharParents(m), Some(id), |m.characterStyles|)
  }

  predicate ParaAcyclic(m: StyleMap)
  {
    forall id | id in m.paragraphStyles :: ChainEnds(ParaParents(m), Some(id), |m.paragraphStyles|)
  }

  /**
   * `CharacterStyle::get_effective_formatting`: the parent's effective
   * formatting with this style's own formatting merged over it; a
   * missing parent is ignored.
   */
  function EffectiveChar(m: StyleMap, s: CharacterStyle, n: nat): (r: Attrs)
    requires ChainEnds(CharParents(m), s.basedOn, n)
    decreases n
  {
    if s.basedOn.None? || s.basedOn.value !in m.characterStyles then s.formatting
    else
      var parent := m.characterStyles[s.basedOn.value];
      assert CharParents(m)[s.basedOn.value] == parent.basedOn;
      MergeFormatting(EffectiveChar(m, parent, n - 1), s.formatting)
  }

  /**
   * What a style sets itself (among the merged attributes) wins; what it
   * leaves unset comes from its parent's effective formatting.
   */
  lemma EffectiveCharInherits(m: StyleMap, s: CharacterStyle, n: nat, a: Attr)
    requires ChainEnds(CharParents(m), s.basedOn, n)
    requires s.basedOn.Some? && s.basedOn.value in m.characterStyles
    ensures CharParents(m)[s.basedOn.value] == m.characterStyles[s.basedOn.value].basedOn
    ensures var parent := EffectiveChar(m, m.characterStyles[s.basedOn.value], n - 1);
      (Merged(a) && a in s.formatting ==> a in EffectiveChar(m, s, n) && EffectiveChar(m, s, n)[a] == s.formatting[a])
      && (a !in s.formatting && a in parent ==> a in EffectiveChar(m, s, n) && EffectiveChar(m, s, n)[a] == parent[a])
  {
  }

  /** A style without a parent in the map has just its own formatting. */
  lemma EffectiveCharOrphan(m: StyleMap, s: CharacterStyle, n: nat)
    requires s.basedOn.None? || s.basedOn.value !in m.characterStyles
    ensures ChainEnds(CharParents(m), s.basedOn, n) && EffectiveChar(m, s, n) == s.formatting
  {
  }

  /** The bound only limits the walk: any bound that reaches the end gives the same formatting. */
  lemma {:induction false} EffectiveCharBoundIrrelevant(m: StyleMap, s: CharacterStyle, n: nat, n': nat)
    requires ChainEnds(CharParents(m), s.basedOn, n) && ChainEnds(CharParents(m), s.basedOn, n')
    ensures EffectiveChar(m, s, n) == EffectiveChar(m, s, n')
    decreases n
  {
    if s.basedOn.Some? && s.basedOn.value in m.characterStyles {
      var parent := m.characterStyles[s.basedOn.value];
      assert CharParents(m)[s.basedOn.value] == parent.basedOn;
      EffectiveCharBoundIrrelevant(m, parent, n - 1, n' - 1);
    }
  }

  /** `ParagraphStyle::get_effective_formatting`. */
  function EffectivePara(m: StyleMap, s: ParagraphStyle, n: nat): (r: ParaProps)
    requires ChainEnds(ParaParents(m), s.basedOn, n)
    decreases n
  {
    if s.basedOn.None? || s.basedOn.value !in m.paragraphStyles then s.formatting
    else
      var parent := m.paragraphStyles[s.basedOn.value];
      assert ParaParents(m)[s.basedOn.value] == parent.basedOn;
      MergeParagraph(EffectivePara(m, parent, n - 1), s.formatting)
  }

  /**
   * A paragraph style with a parent keeps exactly its own listed fields
   * (set or unset) and inherits the others.
   */
  lemma EffectiveParaInherits(m: StyleMap, s: ParagraphStyle, n: nat, f: ParaField)
    requires ChainEnds(ParaParents(m), s.basedOn, n)
    requires s.basedOn.Some? && s.basedOn.value in m.paragraphStyles
    ensures ParaParents(m)[s.basedOn.value] == m.paragraphStyles[s.basedOn.value].basedOn
    ensures var parent := EffectivePara(m, m.paragraphStyles[s.basedOn.value], n - 1);
      (Listed(f) ==> (f in EffectivePara(m, s, n) <==> f in s.formatting))
      && (Listed(f) && f in s.formatting ==> EffectivePara(m, s, n)[f] == s.formatting[f])
      && (!Listed(f) && f in parent ==> f in EffectivePara(m, s, n) && EffectivePara(m, s, n)[f] == parent[f])
  {
  }

  // ---------------------------------------------------------------
  // Defaults and application
  // ---------------------------------------------------------------

  /** The default character style's effective formatting, or nothing when it is unset or missing. */
  function DefaultStyleFormatting(m: StyleMap): Attrs
    requires CharAcyclic(m)
  {
    if m.defaultCharacterStyle.Some? && m.defaultCharacterStyle.value in m.characterStyles then
      ApplyCharacterStyle(m, m.defaultCharacterStyle.value).value
    else map[]
  }

  /**
   * `get_default_character_formatting`: the default style's effective
   * formatting, then the default font's name and size over it.
   */
  function DefaultCharacterFormatting(m: StyleMap): (r: Attrs)
    requires CharAcyclic(m)
    ensures m.defaultFont.Some? ==>
      FontFamily in r && r[FontFamily] == Text(m.defaultFont.value.fontName)
      && FontSize in r && r[FontSize] == Number(m.defaultFont.value.fontSize)
  {
    var styled := DefaultStyleFormatting(m);
    if m.defaultFont.Some? then
      styled[FontFamily := Text(m.defaultFont.value.fontName)][FontSize := Number(m.defaultFont.value.fontSize)]
    else styled
  }

  /**
   * Every attribute but the family and the size is the default style's;
   * without a default font, those two are the style's as well.
   */
  lemma DefaultFontOnlyFamilyAndSize(m: StyleMap, a: Attr)
    requires CharAcyclic(m)
    ensures (a != FontFamily && a != FontSize) || m.defaultFont.None? ==>
      (a in DefaultCharacterFormatting(m) <==> a in DefaultStyleFormatting(m))
      && (a in DefaultStyleFormatting(m) ==> DefaultCharacterFormatting(m)[a] == DefaultStyleFormatting(m)[a])
  {
  }

  /** With no default style set, the default formatting is the default font's alone, if any. */
  lemma DefaultWithoutStyle(m: StyleMap)
    requires CharAcyclic(m) && m.defaultCharacterStyle.None?
    ensures m.defaultFont.None? ==> DefaultCharacterFormatting(m) == map[]
    ensures m.defaultFont.Some? ==> DefaultCharacterFormatting(m).Keys == {FontFamily, FontSize}
  {
  }

  /** `get_default_paragraph_formatting`. */
  function DefaultParagraphFormatting(m: StyleMap): (r: ParaProps)
    requires ParaAcyclic(m)
    ensures m.defaultParagraphStyle.None? ==> r == map[]
  {
    if m.defaultParagraphStyle.Some? && m.defaultParagraphStyle.value in m.paragraphStyles then
      ApplyParagraphStyle(m, m.defaultParagraphStyle.value).value
    else map[]
  }

  /** `apply_character_style`: the effective formatting of the style, absent exactly when the id is. */
  function ApplyCharacterStyle(m: StyleMap, styleId: string): (r: Option<Attrs>)
    requires CharAcyclic(m)
    ensures r.Some? <==> styleId in m.characterStyles
  {
    if styleId in m.characterStyles then
      var s := m.characterStyles[styleId];
      assert ChainEnds(CharParents(m), Some(styleId), |m.characterStyles|);
      assert CharParents(m)[styleId] == s.basedOn;
      Some(EffectiveChar(m, s, |m.characterStyles| - 1))
    else None
  }

  function ApplyParagraphStyle(m: StyleMap, styleId: string): (r: Option<ParaProps>)
    requires ParaAcyclic(m)
    ensures r.Some? <==> styleId in m.paragraphStyles
  {
    if styleId in m.paragraphStyles then
      var s := m.paragraphStyles[styleId];
      assert ChainEnds(ParaParents(m), Some(styleId), |m.paragraphStyles|);
      assert ParaParents(m)[styleId] == s.basedOn;
      Some(EffectivePara(m, s, |m.paragraphStyles| - 1))
    else None
  }

  // ---------------------------------------------------------------
  // Examples from the Rust unit tests
  // ---------------------------------------------------------------

  /** A style whose parent has no parent of its own is its parent's formatting merged with its own. */
  lemma EffectiveCharOneLevel(m: StyleMap, s: CharacterStyle, parent: CharacterStyle)
    requires s.basedOn == Some(parent.styleId) && parent.basedOn.None?
    requires parent.styleId in m.characterStyles && m.characterStyles[parent.styleId] == parent
    ensures ChainEnds(CharParents(m), s.basedOn, 1)
    ensures EffectiveChar(m, s, 1) == MergeFormatting(parent.formatting, s.formatting)
  {
    assert CharParents(m)[parent.styleId] == None;
  }

  /** `Child` (italic) based on `Base` (bold) is both bold and italic. */
  lemma InheritanceExample(m: StyleMap)
    requires m == AddCharacterStyle(AddCharacterStyle(EmptyStyleMap, BaseExample), ChildExample)
    ensures ChainEnds(CharParents(m), ChildExample.basedOn, 1)
    ensures EffectiveChar(m, ChildExample, 1) == map[Bold := Flag(true), Italic := Flag(true)]
  {
    assert m.characterStyles["Base"] == BaseExample by {
      assert "Base" != "Child";
    }
    EffectiveCharOneLevel(m, ChildExample, BaseExample);
    MergeFormattingIsUnion(BaseExample.formatting, ChildExample.formatting);
  }

  const BaseExample := CharacterStyle("Base", "Base", None, map[Bold := Flag(true)], false, false, 0, false)
  const ChildExample := CharacterStyle("Child", "Child", Some("Base"), map[Italic := Flag(true)], false, false, 0, false)

  /** A default font of Calibri at 22 half-points shows in the default formatting. */
  lemma DefaultFontExample()
    ensures var m := EmptyStyleMap.(defaultFont := Some(DefaultFont("Calibri", 22, None, false, false)));
      CharAcyclic(m) && DefaultCharacterFormatting(m) == map[FontFamily := Text("Calibri"), FontSize := Number(22)]
  {
  }
}
