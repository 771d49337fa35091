/**
 * Keyboard shortcuts (`keyboard.rs`): key codes, modifier sets, shortcut
 * records and the two-way shortcut map with its default bindings.  Both
 * hash maps of the Rust code are Dafny maps; anything that reads their
 * iteration order returns a set here.
 */
module Keyboard {
  import opened Wrappers

  type U32 = n: int | 0 <= n < 0x1_0000_0000

  datatype VirtualKey =
    | A | B | C | D | E | F | G | H | I | J | K | L | M
    | N | O | P | Q | R | S | T | U | V | W | X | Y | Z
    | Key0 | Key1 | Key2 | Key3 | Key4 | Key5 | Key6 | Key7 | Key8 | Key9
    | F1 | F2 | F3 | F4 | F5 | F6 | F7 | F8 | F9 | F10 | F11 | F12
    | Left | Right | Up | Down
    | Home | End | PageUp | PageDown
    | Insert | Delete | Backspace | Tab | Enter | Escape
    | Space | Minus | Equal
    | Numpad0 | Numpad1 | Numpad2 | Numpad3 | Numpad4
    | Numpad5 | Numpad6 | Numpad7 | Numpad8 | Numpad9
    | NumpadMultiply | NumpadAdd | NumpadSubtract | NumpadDecimal | NumpadDivide
    | Unknown(code: U32)

  datatype Modifiers = Modifiers(ctrl: bool, alt: bool, shift: bool, meta: bool)

  const NoModifiers := Modifiers(false, false, false, false)
  const Ctrl := Modifiers(true, false, false, false)
  const Shift := Modifiers(false, false, true, false)
  const Alt := Modifiers(false, true, false, false)
  const Meta := Modifiers(false, false, false, true)
  const CtrlShift := Modifiers(true, false, true, false)
  const CtrlAlt := Modifiers(true, true, false, false)

  /** `Modifiers::any`: some modifier key is held. */
  predicate Any(m: Modifiers)
  {
    m.ctrl || m.alt || m.shift || m.meta
  }

  lemma AnyIffSomeModifier(m: Modifiers)
    ensures Any(m) <==> m != NoModifiers
  {
  }

  datatype CommandId =
    | New | Open | Save | SaveAs | Print | Close
    | Undo | Redo | Cut | Copy | Paste | SelectAll | Find | Replace | GoTo
    | Bold | Italic | Underline | StrikeThrough | Subscript | Superscript | FontSize | FontName
    | IncreaseFontSize | DecreaseFontSize | ClearFormatting
    | AlignLeft | AlignCenter | AlignRight | AlignJustify
    | IncreaseIndent | DecreaseIndent | ParagraphSpacing | Bullets | Numbering
    | Heading1 | Heading2 | Heading3 | Normal | LineSpacingSingle | LineSpacing15 | LineSpacingDouble
    | MoveLeft | MoveRight | MoveUp | MoveDown | MoveToLineStart | MoveToLineEnd
    | MoveToDocumentStart | MoveToDocumentEnd | NextPage | PreviousPage
    | SelectLeft | SelectRight | SelectUp | SelectDown | SelectToLineStart | SelectToLineEnd
    | SelectToDocumentStart | SelectToDocumentEnd | SelectWord | SelectParagraph
    | TableInsertRow | TableInsertColumn | TableDeleteRow | TableDeleteColumn | TableMergeCells | TableSplitCell
    | Custom(name: string)

  datatype Category = FileMenu | EditMenu | ViewMenu | InsertMenu | FormatMenu | TableMenu
                    | ToolsMenu | WindowMenu | HelpMenu | DefaultCategory

  datatype Shortcut = Shortcut(key: VirtualKey, modifiers: Modifiers, command: CommandId,
                               displayName: string, category: Category, isDefault: bool)

  /** `Shortcut::new`: a default shortcut in the default category. */
  function NewShortcut(key: VirtualKey, modifiers: Modifiers, command: CommandId, name: string): (s: Shortcut)
    ensures s.key == key && s.modifiers == modifiers && s.command == command && s.displayName == name
    ensures s.category == DefaultCategory && s.isDefault
  {
    Shortcut(key, modifiers, command, name, DefaultCategory, true)
  }

  /** `key_name`: letters, digits, function and editing keys by name; every other key is "Unknown". */
  function KeyName(k: VirtualKey): (r: string)
    ensures |r| >= 1
  {
    match k
    case A => "A" case B => "B" case C => "C" case D => "D" case E => "E" case F => "F"
    case G => "G" case H => "H" case I => "I" case J => "J" case K => "K" case L => "L"
    case M => "M" case N => "N" case O => "O" case P => "P" case Q => "Q" case R => "R"
    case S => "S" case T => "T" case U => "U" case V => "V" case W => "W" case X => "X"
    case Y => "Y" case Z => "Z"
    case Key0 => "0" case Key1 => "1" case Key2 => "2" case Key3 => "3" case Key4 => "4"
    case Key5 => "5" case Key6 => "6" case Key7 => "7" case Key8 => "8" case Key9 => "9"
    case F1 => "F1" case F2 => "F2" case F3 => "F3" case F4 => "F4" case F5 => "F5" case F6 => "F6"
    case F7 => "F7" case F8 => "F8" case F9 => "F9" case F10 => "F10" case F11 => "F11" case F12 => "F12"
    case Left => "Left" case Right => "Right" case Up => "Up" case Down => "Down"
    case Home => "Home" case End => "End" case PageUp => "PageUp" case PageDown => "PageDown"
    case Insert => "Insert" case Delete => "Delete" case Backspace => "Backspace" case Tab => "Tab"
    case Enter => "Enter" case Escape => "Escape" case Space => "Space"
    case _ => "Unknown"
  }

  /**
   * `Shortcut::to_string` on a platform other than macOS: the held
   * modifiers in the order Ctrl (also for Meta), Alt, Shift, then the key,
   * joined by `+`.
   */
  function ShortcutText(s: Shortcut): (r: string)
    ensures |r| >= |KeyName(s.key)| && r[|r| - |KeyName(s.key)|..] == KeyName(s.key)
    ensures (s.modifiers.ctrl || s.modifiers.meta) ==> |r| >= 5 && r[..5] == "Ctrl+"
    ensures !Any(s.modifiers) ==> r == KeyName(s.key)
  {
    var m := s.modifiers;
    var prefix := (if m.ctrl || m.meta then "Ctrl+" else "") + (if m.alt then "Alt+" else "") + (if m.shift then "Shift+" else "");
    prefix + KeyName(s.key)
  }

  lemma ShortcutTextExample()
    ensures ShortcutText(NewShortcut(S, CtrlShift, SaveAs, "Save As")) == "Ctrl+Shift+S"
    ensures ShortcutText(NewShortcut(Home, NoModifiers, MoveToLineStart, "Line Start")) == "Home"
  {
    assert ShortcutText(NewShortcut(S, CtrlShift, SaveAs, "Save As")) == ("Ctrl+" + "" + "Shift+") + "S";
  }

  datatype PlatformConfig = PlatformConfig(macosUsesCmd: bool, escapeCancels: bool, enableNativeShortcuts: bool)

  /** `PlatformConfig::default`: whether the build targets macOS decides the first flag. */
  function DefaultPlatform(onMacos: bool): (p: PlatformConfig)
    ensures p.macosUsesCmd == onMacos && p.escapeCancels && p.enableNativeShortcuts
  {
    PlatformConfig(onMacos, true, true)
  }

  /** The two maps of `ShortcutMap`: key combination to command, command to shortcut. */
  datatype ShortcutMap = ShortcutMap(shortcuts: map<(VirtualKey, Modifiers), CommandId>,
                                     commands: map<CommandId, Shortcut>,
                                     platform: PlatformConfig)

  /** `register`: both maps gain the shortcut, overwriting earlier entries for the same combination or command. */
  function Register(sm: ShortcutMap, s: Shortcut): (r: ShortcutMap)
    ensures GetCommand(r, s.key, s.modifiers) == Some(s.command)
    ensures GetShortcut(r, s.command) == Some(s)
    ensures r.platform == sm.platform
  {
    sm.(shortcuts := sm.shortcuts[(s.key, s.modifiers) := s.command],
        commands := sm.commands[s.command := s])
  }

  /** Registering overwrites only its own combination and its own command. */
  lemma RegisterChangesNothingElse(sm: ShortcutMap, s: Shortcut, key: VirtualKey, modifiers: Modifiers, c: CommandId)
    ensures (key, modifiers) != (s.key, s.modifiers) ==> GetCommand(Register(sm, s), key, modifiers) == GetCommand(sm, key, modifiers)
    ensures c != s.command ==> GetShortcut(Register(sm, s), c) == GetShortcut(sm, c)
  {
  }

  /** `get_command`. */
  function GetCommand(sm: ShortcutMap, key: VirtualKey, modifiers: Modifiers): (r: Option<CommandId>)
    ensures r.Some? <==> (key, modifiers) in sm.shortcuts
    ensures r.Some? ==> r.value == sm.shortcuts[(key, modifiers)]
  {
    if (key, modifiers) in sm.shortcuts then Some(sm.shortcuts[(key, modifiers)]) else None
  }

  /** `get_shortcut`. */
  function GetShortcut(sm: ShortcutMap, command: CommandId): (r: Option<Shortcut>)
    ensures r.Some? <==> command in sm.commands
    ensures r.Some? ==> r.value == sm.commands[command]
  {
    if command in sm.commands then Some(sm.commands[command]) else None
  }

  /** `handle_key_event`: looks the combination up, exactly as `get_command` does. */
  function HandleKeyEvent(sm: ShortcutMap, key: VirtualKey, modifiers: Modifiers): (r: Option<CommandId>)
    ensures r == GetCommand(sm, key, modifiers)
  {
    GetCommand(sm, key, modifiers)
  }

  /** Register the shortcuts in order. */
  function RegisterAll(sm: ShortcutMap, list: seq<Shortcut>): (r: ShortcutMap)
    ensures r.platform == sm.platform
  {
    if |list| == 0 then sm else Register(RegisterAll(sm, list[..|list| - 1]), list[|list| - 1])
  }

  /** After registering a list, a combination maps to the command of the last shortcut for it. */
  lemma {:induction false} LastRegistrationWins(sm: ShortcutMap, list: seq<Shortcut>, i: nat)
    requires i < |list| && LaterUnbound(list, i)
    ensures GetCommand(RegisterAll(sm, list), list[i].key, list[i].modifiers) == Some(list[i].command)
    decreases |list|
  {
    if i < |list| - 1 {
      LastRegistrationWins(sm, list[..|list| - 1], i);
      RegisterChangesNothingElse(RegisterAll(sm, list[..|list| - 1]), list[|list| - 1], list[i].key, list[i].modifiers, New);
    }
  }

  /** No shortcut after position `i` is for the combination of the one at `i`. */
  predicate LaterUnbound(list: seq<Shortcut>, i: nat)
    requires i < |list|
  {
    forall j :: i < j < |list| ==> (list[j].key, list[j].modifiers) != (list[i].key, list[i].modifiers)
  }

  /** After registering a list, a command maps to the last shortcut registered for it. */
  lemma {:induction false} LastShortcutWins(sm: ShortcutMap, list: seq<Shortcut>, i: nat)
    requires i < |list|
    requires forall j :: i < j < |list| ==> list[j].command != list[i].command
    ensures GetShortcut(RegisterAll(sm, list), list[i].command) == Some(list[i])
    decreases |list|
  {
    if i < |list| - 1 {
      LastShortcutWins(sm, list[..|list| - 1], i);
      RegisterChangesNothingElse(RegisterAll(sm, list[..|list| - 1]), list[|list| - 1], list[i].key, list[i].modifiers, list[i].command);
    }
  }

  /** Registering shortcuts for other combinations leaves a combination's command alone. */
  lemma {:induction false} OtherCombosKeepCommand(sm: ShortcutMap, list: seq<Shortcut>, key: VirtualKey, modifiers: Modifiers)
    requires Unbound(list, key, modifiers)
    ensures GetCommand(RegisterAll(sm, list), key, modifiers) == GetCommand(sm, key, modifiers)
    decreases |list|
  {
    if |list| > 0 {
      OtherCombosKeepCommand(sm, list[..|list| - 1], key, modifiers);
      RegisterChangesNothingElse(RegisterAll(sm, list[..|list| - 1]), list[|list| - 1], key, modifiers, New);
    }
  }

  /** Registering shortcuts for other commands leaves a command's shortcut alone. */
  lemma {:induction false} OtherCommandsKeepShortcut(sm: ShortcutMap, list: seq<Shortcut>, command: CommandId)
    requires forall j :: 0 <= j < |list| ==> list[j].command != command
    ensures GetShortcut(RegisterAll(sm, list), command) == GetShortcut(sm, command)
    decreases |list|
  {
    if |list| > 0 {
      OtherCommandsKeepShortcut(sm, list[..|list| - 1], command);
      RegisterChangesNothingElse(RegisterAll(sm, list[..|list| - 1]), list[|list| - 1], list[0].key, list[0].modifiers, command);
    }
  }

  /** Every shortcut in the map belongs to `category`. */
  predicate AllIn(sm: ShortcutMap, category: Category)
  {
    forall c :: c in sm.commands ==> sm.commands[c].category == category
  }

  /** Every shortcut of `list` belongs to `category`. */
  predicate AllOfCategory(list: seq<Shortcut>, category: Category)
  {
    forall j :: 0 <= j < |list| ==> list[j].category == category
  }

  /** Registering shortcuts of one category keeps a map whose shortcuts are all of that category so. */
  lemma {:induction false} RegisterKeepsCategory(sm: ShortcutMap, list: seq<Shortcut>, category: Category)
    requires AllIn(sm, category) && AllOfCategory(list, category)
    ensures AllIn(RegisterAll(sm, list), category)
    decreases |list|
  {
    if |list| > 0 {
      RegisterKeepsCategory(sm, list[..|list| - 1], category);
    }
  }

  // The shortcuts `register_defaults` installs, group by group in registration order.

  const FileDefaults: seq<Shortcut> := [
    Shortcut(N, Ctrl, New, "New", DefaultCategory, true),
    Shortcut(O, Ctrl, Open, "Open", DefaultCategory, true),
    Shortcut(S, Ctrl, Save, "Save", DefaultCategory, true),
    Shortcut(S, CtrlShift, SaveAs, "Save As", DefaultCategory, true),
    Shortcut(P, Ctrl, Print, "Print", DefaultCategory, true)
  ]

  const EditDefaults: seq<Shortcut> := [
    Shortcut(Z, Ctrl, Undo, "Undo", DefaultCategory, true),
    Shortcut(Y, Ctrl, Redo, "Redo", DefaultCategory, true),
    Shortcut(X, Ctrl, Cut, "Cut", DefaultCategory, true),
    Shortcut(C, Ctrl, Copy, "Copy", DefaultCategory, true),
    Shortcut(V, Ctrl, Paste, "Paste", DefaultCategory, true),
    Shortcut(A, Ctrl, SelectAll, "Select All", DefaultCategory, true),
    Shortcut(F, Ctrl, Find, "Find", DefaultCategory, true),
    Shortcut(H, Ctrl, Replace, "Replace", DefaultCategory, true)
  ]

  const FormatDefaults: seq<Shortcut> := [
    Shortcut(B, Ctrl, Bold, "Bold", DefaultCategory, true),
    Shortcut(I, Ctrl, Italic, "Italic", DefaultCategory, true),
    Shortcut(U, Ctrl, Underline, "Underline", DefaultCategory, true),
    Shortcut(D, Ctrl, StrikeThrough, "Strikethrough", DefaultCategory, true),
    Shortcut(Equal, Ctrl, Superscript, "Superscript", DefaultCategory, true),
    Shortcut(Equal, CtrlShift, Subscript, "Subscript", DefaultCategory, true)
  ]

  const ParagraphDefaults: seq<Shortcut> := [
    Shortcut(Key1, Ctrl, Heading1, "Heading 1", DefaultCategory, true),
    Shortcut(Key2, Ctrl, Heading2, "Heading 2", DefaultCategory, true),
    Shortcut(Key3, Ctrl, Heading3, "Heading 3", DefaultCategory, true),
    Shortcut(Key0, Ctrl, Normal, "Normal", DefaultCategory, true)
  ]

  const NavigationDefaults: seq<Shortcut> := [
    Shortcut(Home, NoModifiers, MoveToLineStart, "Line Start", DefaultCategory, true),
    Shortcut(End, NoModifiers, MoveToLineEnd, "Line End", DefaultCategory, true),
    Shortcut(Home, Ctrl, MoveToDocumentStart, "Document Start", DefaultCategory, true),
    Shortcut(End, Ctrl, MoveToDocumentEnd, "Document End", DefaultCategory, true)
  ]

  const SelectionDefaults: seq<Shortcut> := [
    Shortcut(A, CtrlShift, SelectAll, "Select All", DefaultCategory, true)
  ]

  function EmptyMap(onMacos: bool): ShortcutMap
  {
    ShortcutMap(map[], map[], DefaultPlatform(onMacos))
  }

  /** `ShortcutMap::new`: an empty map with the default groups registered in order. */
  function NewMap(onMacos: bool): (r: ShortcutMap)
    ensures r.platform == DefaultPlatform(onMacos)
  {
    var file := RegisterAll(EmptyMap(onMacos), FileDefaults);
    var edit := RegisterAll(file, EditDefaults);
    var format := RegisterAll(edit, FormatDefaults);
    var paragraph := RegisterAll(format, ParagraphDefaults);
    var navigation := RegisterAll(paragraph, NavigationDefaults);
    RegisterAll(navigation, SelectionDefaults)
  }

  /** Ctrl+S saves. */
  lemma DefaultSave(onMacos: bool)
    ensures GetCommand(NewMap(onMacos), S, Ctrl) == Some(Save)
  {
    FileGroupBindsSave(EmptyMap(onMacos));
    SaveUnboundLater();
    AfterFileKeeps(RegisterAll(EmptyMap(onMacos), FileDefaults), S, Ctrl);
  }

  /** Ctrl+Shift+S saves under a new name. */
  lemma DefaultSaveAs(onMacos: bool)
    ensures GetCommand(NewMap(onMacos), S, CtrlShift) == Some(SaveAs)
  {
    FileGroupBindsSave(EmptyMap(onMacos));
    SaveUnboundLater();
    AfterFileKeeps(RegisterAll(EmptyMap(onMacos), FileDefaults), S, CtrlShift);
  }

  lemma FileGroupBindsSave(sm: ShortcutMap)
    ensures GetCommand(RegisterAll(sm, FileDefaults), S, Ctrl) == Some(Save)
    ensures GetCommand(RegisterAll(sm, FileDefaults), S, CtrlShift) == Some(SaveAs)
  {
    FileSavesLast();
    LastRegistrationWins(sm, FileDefaults, 2);
    LastRegistrationWins(sm, FileDefaults, 3);
  }

  lemma FileSavesLast()
    ensures LaterUnbound(FileDefaults, 2) && LaterUnbound(FileDefaults, 3)
  {
  }

  /** No group after the file group binds S with Ctrl or with Ctrl+Shift. */
  lemma SaveUnboundLater()
    ensures Unbound(EditDefaults, S, Ctrl) && Unbound(FormatDefaults, S, Ctrl) && Unbound(ParagraphDefaults, S, Ctrl)
    ensures Unbound(NavigationDefaults, S, Ctrl) && Unbound(SelectionDefaults, S, Ctrl)
    ensures Unbound(EditDefaults, S, CtrlShift) && Unbound(FormatDefaults, S, CtrlShift) && Unbound(ParagraphDefaults, S, CtrlShift)
    ensures Unbound(NavigationDefaults, S, CtrlShift) && Unbound(SelectionDefaults, S, CtrlShift)
  {
  }

  /** No shortcut of `list` is for this combination. */
  predicate Unbound(list: seq<Shortcut>, key: VirtualKey, modifiers: Modifiers)
  {
    forall j :: 0 <= j < |list| ==> (list[j].key, list[j].modifiers) != (key, modifiers)
  }

  /** A combination the groups after the file group leave alone keeps its command. */
  lemma AfterFileKeeps(file: ShortcutMap, key: VirtualKey, modifiers: Modifiers)
    requires Unbound(EditDefaults, key, modifiers) && Unbound(FormatDefaults, key, modifiers)
    requires Unbound(ParagraphDefaults, key, modifiers) && Unbound(NavigationDefaults, key, modifiers)
    requires Unbound(SelectionDefaults, key, modifiers)
    ensures var edit := RegisterAll(file, EditDefaults);
            var format := RegisterAll(edit, FormatDefaults);
            var paragraph := RegisterAll(format, ParagraphDefaults);
            var navigation := RegisterAll(paragraph, NavigationDefaults);
            GetCommand(RegisterAll(navigation, SelectionDefaults), key, modifiers) == GetCommand(file, key, modifiers)
  {
    var edit := RegisterAll(file, EditDefaults);
    OtherCombosKeepCommand(file, EditDefaults, key, modifiers);
    AfterEditKeeps(edit, key, modifiers);
  }

  /** A combination the groups after the edit group leave alone keeps its command. */
  lemma AfterEditKeeps(edit: ShortcutMap, key: VirtualKey, modifiers: Modifiers)
    requires Unbound(FormatDefaults, key, modifiers) && Unbound(ParagraphDefaults, key, modifiers)
    requires Unbound(NavigationDefaults, key, modifiers) && Unbound(SelectionDefaults, key, modifiers)
    ensures var format := RegisterAll(edit, FormatDefaults);
            var paragraph := RegisterAll(format, ParagraphDefaults);
            var navigation := RegisterAll(paragraph, NavigationDefaults);
            GetCommand(RegisterAll(navigation, SelectionDefaults), key, modifiers) == GetCommand(edit, key, modifiers)
  {
    var format := RegisterAll(edit, FormatDefaults);
    var paragraph := RegisterAll(format, ParagraphDefaults);
    var navigation := RegisterAll(paragraph, NavigationDefaults);
    OtherCombosKeepCommand(edit, FormatDefaults, key, modifiers);
    OtherCombosKeepCommand(format, ParagraphDefaults, key, modifiers);
    OtherCombosKeepCommand(paragraph, NavigationDefaults, key, modifiers);
    OtherCombosKeepCommand(navigation, SelectionDefaults, key, modifiers);
  }

  /** Home goes to the line start. */
  lemma DefaultLineStart(onMacos: bool)
    ensures GetCommand(NewMap(onMacos), Home, NoModifiers) == Some(MoveToLineStart)
  {
    NavigationBinds(RegisterAll(RegisterAll(RegisterAll(RegisterAll(EmptyMap(onMacos), FileDefaults), EditDefaults), FormatDefaults), ParagraphDefaults));
  }

  /** Ctrl+Home goes to the document start. */
  lemma DefaultDocumentStart(onMacos: bool)
    ensures GetCommand(NewMap(onMacos), Home, Ctrl) == Some(MoveToDocumentStart)
  {
    NavigationBinds(RegisterAll(RegisterAll(RegisterAll(RegisterAll(EmptyMap(onMacos), FileDefaults), EditDefaults), FormatDefaults), ParagraphDefaults));
  }

  /** The navigation group's bindings survive the selection group. */
  lemma NavigationBinds(sm: ShortcutMap)
    ensures GetCommand(RegisterAll(RegisterAll(sm, NavigationDefaults), SelectionDefaults), Home, NoModifiers) == Some(MoveToLineStart)
    ensures GetCommand(RegisterAll(RegisterAll(sm, NavigationDefaults), SelectionDefaults), Home, Ctrl) == Some(MoveToDocumentStart)
  {
    NavigationGroupBinds(sm);
    SelectionKeeps(RegisterAll(sm, NavigationDefaults), Home, NoModifiers);
    SelectionKeeps(RegisterAll(sm, NavigationDefaults), Home, Ctrl);
  }

  lemma NavigationGroupBinds(sm: ShortcutMap)
    ensures GetCommand(RegisterAll(sm, NavigationDefaults), Home, NoModifiers) == Some(MoveToLineStart)
    ensures GetCommand(RegisterAll(sm, NavigationDefaults), Home, Ctrl) == Some(MoveToDocumentStart)
  {
    NavigationHomeLast();
    LastRegistrationWins(sm, NavigationDefaults, 0);
    LastRegistrationWins(sm, NavigationDefaults, 2);
  }

  lemma NavigationHomeLast()
    ensures LaterUnbound(NavigationDefaults, 0) && LaterUnbound(NavigationDefaults, 2)
  {
  }

  /** The selection group binds only Ctrl+Shift+A. */
  lemma SelectionKeeps(sm: ShortcutMap, key: VirtualKey, modifiers: Modifiers)
    requires (key, modifiers) != (A, CtrlShift)
    ensures GetCommand(RegisterAll(sm, SelectionDefaults), key, modifiers) == GetCommand(sm, key, modifiers)
  {
    OtherCombosKeepCommand(sm, SelectionDefaults, key, modifiers);
  }

  /** Ctrl+A selects everything. */
  lemma DefaultSelectAllCtrl(onMacos: bool)
    ensures GetCommand(NewMap(onMacos), A, Ctrl) == Some(SelectAll)
  {
    var file := RegisterAll(EmptyMap(onMacos), FileDefaults);
    EditGroupBindsSelectAll(file);
    SelectAllUnboundLater();
    AfterEditKeeps(RegisterAll(file, EditDefaults), A, Ctrl);
  }

  /** No group after the edit group binds A with Ctrl. */
  lemma SelectAllUnboundLater()
    ensures Unbound(FormatDefaults, A, Ctrl) && Unbound(ParagraphDefaults, A, Ctrl)
    ensures Unbound(NavigationDefaults, A, Ctrl) && Unbound(SelectionDefaults, A, Ctrl)
  {
  }

  lemma EditGroupBindsSelectAll(sm: ShortcutMap)
    ensures GetCommand(RegisterAll(sm, EditDefaults), A, Ctrl) == Some(SelectAll)
  {
    EditSelectAllLast();
    LastRegistrationWins(sm, EditDefaults, 5);
  }

  lemma EditSelectAllLast()
    ensures LaterUnbound(EditDefaults, 5)
  {
  }

  /**
   * Ctrl+Shift+A selects everything too, and being registered later it is
   * the shortcut the Select All command reports.
   */
  lemma DefaultSelectAllCtrlShift(onMacos: bool)
    ensures GetCommand(NewMap(onMacos), A, CtrlShift) == Some(SelectAll)
    ensures GetShortcut(NewMap(onMacos), SelectAll) == Some(SelectionDefaults[0])
    ensures SelectionDefaults[0].key == A && SelectionDefaults[0].modifiers == CtrlShift
  {
    var navigation := RegisterAll(RegisterAll(RegisterAll(RegisterAll(RegisterAll(EmptyMap(onMacos), FileDefaults), EditDefaults), FormatDefaults), ParagraphDefaults), NavigationDefaults);
    LastRegistrationWins(navigation, SelectionDefaults, 0);
    LastShortcutWins(navigation, SelectionDefaults, 0);
  }

  /** `shortcuts_by_category`: the registered shortcuts of one category (in no particular order). */
  function ShortcutsByCategory(sm: ShortcutMap, category: Category): (r: set<Shortcut>)
    ensures forall s :: s in r <==> s in sm.commands.Values && s.category == category
  {
    set s | s in sm.commands.Values && s.category == category
  }

  /** `all_shortcuts`. */
  function AllShortcuts(sm: ShortcutMap): (r: set<Shortcut>)
    ensures forall s :: s in r <==> exists c :: c in sm.commands && sm.commands[c] == s
  {
    sm.commands.Values
  }

  /** Every default shortcut sits in the default category, so that category holds them all. */
  lemma DefaultsAreDefaultCategory(onMacos: bool)
    ensures ShortcutsByCategory(NewMap(onMacos), DefaultCategory) == AllShortcuts(NewMap(onMacos))
  {
    DefaultsAllInDefaultCategory(onMacos);
  }

  lemma DefaultsAllInDefaultCategory(onMacos: bool)
    ensures AllIn(NewMap(onMacos), DefaultCategory)
  {
    var format := RegisterAll(RegisterAll(RegisterAll(EmptyMap(onMacos), FileDefaults), EditDefaults), FormatDefaults);
    FirstGroupsInCategory(EmptyMap(onMacos));
    LastGroupsInCategory(format);
  }

  lemma FirstGroupsInCategory(sm: ShortcutMap)
    requires AllIn(sm, DefaultCategory)
    ensures AllIn(RegisterAll(RegisterAll(RegisterAll(sm, FileDefaults), EditDefaults), FormatDefaults), DefaultCategory)
  {
    var file := RegisterAll(sm, FileDefaults);
    FirstGroupsDefault();
    RegisterKeepsCategory(sm, FileDefaults, DefaultCategory);
    RegisterKeepsCategory(file, EditDefaults, DefaultCategory);
    RegisterKeepsCategory(RegisterAll(file, EditDefaults), FormatDefaults, DefaultCategory);
  }

  lemma LastGroupsInCategory(sm: ShortcutMap)
    requires AllIn(sm, DefaultCategory)
    ensures AllIn(RegisterAll(RegisterAll(RegisterAll(sm, ParagraphDefaults), NavigationDefaults), SelectionDefaults), DefaultCategory)
  {
    var paragraph := RegisterAll(sm, ParagraphDefaults);
    LastGroupsDefault();
    RegisterKeepsCategory(sm, ParagraphDefaults, DefaultCategory);
    RegisterKeepsCategory(paragraph, NavigationDefaults, DefaultCategory);
    RegisterKeepsCategory(RegisterAll(paragraph, NavigationDefaults), SelectionDefaults, DefaultCategory);
  }

  lemma FirstGroupsDefault()
    ensures AllOfCategory(FileDefaults, DefaultCategory) && AllOfCategory(EditDefaults, DefaultCategory)
    ensures AllOfCategory(FormatDefaults, DefaultCategory)
  {
  }

  lemma LastGroupsDefault()
    ensures AllOfCategory(ParagraphDefaults, DefaultCategory) && AllOfCategory(NavigationDefaults, DefaultCategory)
    ensures AllOfCategory(SelectionDefaults, DefaultCategory)
  {
  }
}
