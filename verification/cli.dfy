/** The install-command box: the command shown for a package manager, and
    what choosing a package manager from the copy menu does. */
module Cli {
  import opened Wrappers
  import opened Strings

  /** The `command` property. */
  datatype Command = Init | Add | Install

  /** The optional `items` property: absent, one string, or a list. */
  datatype Items = Absent | One(text: string) | Many(list: seq<string>)

  /** The package managers the menu offers; any other string acts as npm. */
  datatype Manager = Bun | Yarn | Pnpm | Npm

  /** `items` as it appears in the template literal: a string as is, a list
      joined by single spaces, and an absent value as `undefined`. */
  function ItemText(items: Items): string
  {
    match items
    case Absent => "undefined"
    case One(text) => text
    case Many(list) => Join(list, " ")
  }

  /** `getCommand(pm)`. */
  function GetCommand(pm: string, command: Command, items: Items): string
  {
    var item := ItemText(items);
    if pm == "bun" then
      if command == Init then "bunx cleon init"
      else if command == Add then "bunx cleon add " + item
      else "bun add " + item
    else if pm == "yarn" then
      if command == Init then "npx cleon init"
      else if command == Add then "npx cleon add " + item
      else "yarn add " + item
    else if pm == "pnpm" then
      if command == Init then "pnpm dlx cleon init"
      else if command == Add then "pnpm dlx cleon add " + item
      else "pnpm add " + item
    else
      if command == Init then "npx cleon init"
      else if command == Add then "npx cleon add " + item
      else "npm i " + item
  }

  // ---------------------------------------------------------------------
  // The command table, read per package manager.
  // ---------------------------------------------------------------------

  function ManagerOf(pm: string): (m: Manager)
    ensures m == Bun <==> pm == "bun"
    ensures m == Yarn <==> pm == "yarn"
    ensures m == Pnpm <==> pm == "pnpm"
  {
    if pm == "bun" then Bun else if pm == "yarn" then Yarn else if pm == "pnpm" then Pnpm else Npm
  }

  function InitText(m: Manager): string
  {
    match m
    case Bun => "bunx cleon init"
    case Pnpm => "pnpm dlx cleon init"
    case _ => "npx cleon init"
  }

  /** What precedes the items of an `add` command, trailing space included. */
  function AddPrefix(m: Manager): string
  {
    match m
    case Bun => "bunx cleon add "
    case Pnpm => "pnpm dlx cleon add "
    case _ => "npx cleon add "
  }

  /** What precedes the items of an `install` command, trailing space included. */
  function InstallPrefix(m: Manager): string
  {
    match m
    case Bun => "bun add "
    case Yarn => "yarn add "
    case Pnpm => "pnpm add "
    case Npm => "npm i "
  }

  predicate HasPrefix(s: string, p: string)
  {
    |p| <= |s| && s[..|p|] == p
  }

  /** Reads the command kind and the item text back out of a shown command. */
  function ParseCommand(pm: string, s: string): Option<(Command, string)>
  {
    var m := ManagerOf(pm);
    if s == InitText(m) then Some((Init, ""))
    else if HasPrefix(s, AddPrefix(m)) then Some((Add, s[|AddPrefix(m)|..]))
    else if HasPrefix(s, InstallPrefix(m)) then Some((Install, s[|InstallPrefix(m)|..]))
    else None
  }

  /** The switch is the table: `init` ignores the items, the other commands
      are their prefix, a space, and the items. */
  lemma GetCommandTable(pm: string, command: Command, items: Items)
    ensures GetCommand(pm, command, items)
         == match command
            case Init => InitText(ManagerOf(pm))
            case Add => AddPrefix(ManagerOf(pm)) + ItemText(items)
            case Install => InstallPrefix(ManagerOf(pm)) + ItemText(items)
  {
  }

  /** `init` never depends on the items. */
  lemma InitIgnoresItems(pm: string, a: Items, b: Items)
    ensures GetCommand(pm, Init, a) == GetCommand(pm, Init, b)
  {
  }

  /** Any package manager string the switch does not name acts as npm. */
  lemma UnknownManagerIsNpm(pm: string, command: Command, items: Items)
    requires pm != "bun" && pm != "yarn" && pm != "pnpm"
    ensures GetCommand(pm, command, items) == GetCommand("npm", command, items)
  {
  }

  /** The three kinds of command can never be confused with each other. */
  lemma PrefixesDistinct(m: Manager, x: string)
    ensures AddPrefix(m) + x != InitText(m)
    ensures InstallPrefix(m) + x != InitText(m)
    ensures !HasPrefix(InstallPrefix(m) + x, AddPrefix(m))
  {
    var a, i, n := AddPrefix(m), InstallPrefix(m), InitText(m);
    match m
    case Bun =>
      assert (a + x)[11] == 'a' && n[11] == 'i';
      assert (i + x)[3] == ' ' && n[3] == 'x';
      assert a[3] == 'x';
    case Yarn =>
      assert (a + x)[10] == 'a' && n[10] == 'i';
      assert (i + x)[0] == 'y' && n[0] == 'n';
      assert a[0] == 'n';
    case Pnpm =>
      assert (a + x)[15] == 'a' && n[15] == 'i';
      assert (i + x)[5] == 'a' && n[5] == 'd';
      assert a[5] == 'd';
    case Npm =>
      assert (a + x)[10] == 'a' && n[10] == 'i';
      assert (i + x)[2] == 'm' && n[2] == 'x';
      assert a[2] == 'x';
  }

  /** A shown command gives back its kind and, except for `init`, the item
      text it was built from. */
  lemma ParseGetCommand(pm: string, command: Command, items: Items)
    ensures ParseCommand(pm, GetCommand(pm, command, items))
         == Some((command, if command == Init then "" else ItemText(items)))
  {
    var m := ManagerOf(pm);
    var x := ItemText(items);
    GetCommandTable(pm, command, items);
    PrefixesDistinct(m, x);
    var s := GetCommand(pm, command, items);
    match command
    case Init =>
    case Add =>
      assert s[..|AddPrefix(m)|] == AddPrefix(m) && s[|AddPrefix(m)|..] == x;
    case Install =>
      assert s[..|InstallPrefix(m)|] == InstallPrefix(m) && s[|InstallPrefix(m)|..] == x;
  }

  /** Two selections showing the same command agree on the kind and, except
      for `init`, on the item text. */
  lemma GetCommandInjective(pm: string, c1: Command, i1: Items, c2: Command, i2: Items)
    requires GetCommand(pm, c1, i1) == GetCommand(pm, c2, i2)
    ensures c1 == c2
    ensures c1 != Init ==> ItemText(i1) == ItemText(i2)
  {
    ParseGetCommand(pm, c1, i1);
    ParseGetCommand(pm, c2, i2);
  }

  /** A non-empty list of package names without spaces can be read back
      from the command. */
  lemma ItemListRoundTrip(list: seq<string>)
    requires |list| > 0
    requires forall i :: 0 <= i < |list| ==> ' ' !in list[i]
    ensures Split(ItemText(Many(list)), ' ') == list
  {
    SplitJoin(list, ' ');
  }

  /** An empty list prints no items at all, and reading the text back gives
      one empty name rather than no names. */
  lemma EmptyItemList()
    ensures ItemText(Many([])) == ""
    ensures GetCommand("npm", Add, Many([])) == "npx cleon add "
    ensures Split(ItemText(Many([])), ' ') == [""]
  {
  }

  /** Without `items`, `add` shows the word `undefined`. */
  lemma AbsentItemsShowUndefined()
    ensures GetCommand("npm", Add, Absent) == "npx cleon add undefined"
  {
  }

  // ---------------------------------------------------------------------
  // The component state and `handleCopy`.
  // ---------------------------------------------------------------------

  /** The command shown and whether the check mark is on. */
  datatype CliState = CliState(cli: string, copied: bool)

  /** The clipboard as the handler finds it: whether `navigator.clipboard`
      exists, whether the page is a secure context, and whether
      `writeText` resolves. */
  datatype Clipboard = Clipboard(present: bool, secure: bool, accepts: bool)

  /** What the user sees besides the state: a clipboard write of some text
      (and whether it resolved), or the error toast. */
  datatype Effect = Write(text: string, done: bool) | ErrorToast

  datatype CopyResult = CopyResult(state: CliState, effect: Effect)

  /** The state on first render: npm's command, no check mark. */
  function InitialCli(command: Command, items: Items): (r: CliState)
    ensures r.cli == GetCommand("npm", command, items) && !r.copied
  {
    CliState(GetCommand("npm", command, items), false)
  }

  /** `handleCopy(pm)` as written: the new command is shown, but the write
      uses the command of the render the handler was created in, which is
      the one shown before the click. `copied` is set only after the write
      resolves. */
  function HandleCopy(state: CliState, pm: string, command: Command, items: Items, clip: Clipboard)
    : (r: CopyResult)
    ensures r.state.cli == GetCommand(pm, command, items)
    ensures r.effect.Write? <==> clip.present && clip.secure
    ensures r.effect.Write? ==> r.effect.text == state.cli && r.effect.done == clip.accepts
    ensures r.state.copied <==> state.copied || (clip.present && clip.secure && clip.accepts)
  {
    var shown := GetCommand(pm, command, items);
    if clip.present && clip.secure then
      CopyResult(CliState(shown, state.copied || clip.accepts), Write(state.cli, clip.accepts))
    else
      CopyResult(CliState(shown, state.copied), ErrorToast)
  }

  /** The corrected handler: the clipboard receives the command just chosen. */
  function HandleCopyFixed(state: CliState, pm: string, command: Command, items: Items, clip: Clipboard)
    : (r: CopyResult)
    ensures r.state.cli == GetCommand(pm, command, items)
    ensures r.effect.Write? <==> clip.present && clip.secure
    ensures r.effect.Write? ==> r.effect.text == r.state.cli && r.effect.done == clip.accepts
    ensures r.state.copied <==> state.copied || (clip.present && clip.secure && clip.accepts)
  {
    var shown := GetCommand(pm, command, items);
    if clip.present && clip.secure then
      CopyResult(CliState(shown, state.copied || clip.accepts), Write(shown, clip.accepts))
    else
      CopyResult(CliState(shown, state.copied), ErrorToast)
  }

  /** As written, choosing bun on a fresh `init` box puts npm's command on
      the clipboard while bun's is shown. */
  lemma HandleCopyWritesStaleCommand(items: Items, clip: Clipboard)
    requires clip.present && clip.secure
    ensures var r := HandleCopy(InitialCli(Init, items), "bun", Init, items, clip);
            && r.state.cli == "bunx cleon init"
            && r.effect == Write("npx cleon init", clip.accepts)
            && r.effect.text != r.state.cli
  {
  }

  /** As written, the write always lags one choice behind: after choosing
      `first` and then `second`, the clipboard holds `first`'s command. */
  lemma HandleCopyLags(state: CliState, first: string, second: string, command: Command,
                       items: Items, clip: Clipboard)
    requires clip.present && clip.secure
    ensures var r := HandleCopy(HandleCopy(state, first, command, items, clip).state,
                                second, command, items, clip);
            r.effect.Write? && r.effect.text == GetCommand(first, command, items)
  {
  }

  /** Corrected, the clipboard always receives what the box then shows. */
  lemma HandleCopyFixedWritesShown(state: CliState, pm: string, command: Command, items: Items,
                                   clip: Clipboard)
    requires clip.present && clip.secure
    ensures var r := HandleCopyFixed(state, pm, command, items, clip);
            r.effect == Write(GetCommand(pm, command, items), clip.accepts)
            && r.effect.text == r.state.cli
  {
  }

  /** The two handlers differ only in the written text, and agree whenever
      the chosen command is the one already shown. */
  lemma HandleCopyAgreesWhenUnchanged(state: CliState, pm: string, command: Command, items: Items,
                                      clip: Clipboard)
    ensures HandleCopy(state, pm, command, items, clip).state
         == HandleCopyFixed(state, pm, command, items, clip).state
    ensures state.cli == GetCommand(pm, command, items)
        ==> HandleCopy(state, pm, command, items, clip) == HandleCopyFixed(state, pm, command, items, clip)
  {
  }
}
