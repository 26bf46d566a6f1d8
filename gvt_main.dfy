/**
 * `Gvt.mainInternal`: picks the command named by the first argument
 * (case-insensitively), refuses every command but INIT in a directory that
 * is not initialized, and runs the command on the remaining arguments. An
 * `IllegalArgumentException`, whether from `Command.valueOf` or escaping
 * from the command, ends the run with exit code 1.
 */
module GvtMain {
  import opened Wrappers
  import opened Text
  import opened Snapshots
  import opened VersionControl
  import opened Commands

  /** The enum constant's name. */
  function CommandName(c: Command): string {
    match c
    case INIT => "INIT"
    case ADD => "ADD"
    case DETACH => "DETACH"
    case COMMIT => "COMMIT"
    case HISTORY => "HISTORY"
    case VERSION => "VERSION"
    case CHECKOUT => "CHECKOUT"
  }

  /** `Command.valueOf(name.toUpperCase())`; None: the `IllegalArgumentException` of an unknown name. */
  function ParseCommand(name: string): (r: Option<Command>)
    ensures r.Some? ==> ToUpper(name) == CommandName(r.value)
  {
    match ToUpper(name)
    case "INIT" => Some(INIT)
    case "ADD" => Some(ADD)
    case "DETACH" => Some(DETACH)
    case "COMMIT" => Some(COMMIT)
    case "HISTORY" => Some(HISTORY)
    case "VERSION" => Some(VERSION)
    case "CHECKOUT" => Some(CHECKOUT)
    case _ => None
  }

  /** A name selects a command exactly when it upper-cases to that command's name. */
  lemma ParseCommandExact(name: string, c: Command)
    ensures ParseCommand(name) == Some(c) <==> ToUpper(name) == CommandName(c)
  {
  }

  /** Names that only differ in the case of ASCII letters select the same command. */
  lemma ParseCommandIgnoresCase(a: string, b: string)
    requires |a| == |b| && forall k :: 0 <= k < |a| ==> UpperChar(a[k]) == UpperChar(b[k])
    ensures ParseCommand(a) == ParseCommand(b)
  {
    assert ToUpper(a) == ToUpper(b);
  }

  /** The lower-case names a user types select their commands. */
  lemma LowerCaseNames()
    ensures ParseCommand("init") == Some(INIT) && ParseCommand("add") == Some(ADD)
    ensures ParseCommand("detach") == Some(DETACH) && ParseCommand("commit") == Some(COMMIT)
    ensures ParseCommand("history") == Some(HISTORY) && ParseCommand("version") == Some(VERSION)
    ensures ParseCommand("checkout") == Some(CHECKOUT)
    ensures ParseCommand("status") == None
  {
    assert ToUpper("init") == "INIT";
    assert ToUpper("add") == "ADD";
    assert ToUpper("detach") == "DETACH";
    assert ToUpper("commit") == "COMMIT";
    assert ToUpper("history") == "HISTORY";
    assert ToUpper("version") == "VERSION";
    assert ToUpper("checkout") == "CHECKOUT";
    assert ToUpper("status") == "STATUS";
  }

  /** Where `mainInternal` sends its arguments. */
  datatype Route =
    | NoCommand
    | UnknownCommand
    | NotInitialized
    | Run(cmd: Command, arguments: seq<string>)

  function RouteOf(args: seq<string>, initialized: bool): (r: Route)
    ensures r.Run? ==> |args| > 0 && ParseCommand(args[0]) == Some(r.cmd) && r.arguments == args[1..]
    ensures r.Run? && !initialized ==> r.cmd == INIT
    ensures r == NoCommand <==> |args| == 0
    ensures r == UnknownCommand <==> |args| > 0 && ParseCommand(args[0]).None?
    ensures |args| > 0 && ParseCommand(args[0]).Some? && (initialized || ParseCommand(args[0]) == Some(INIT)) ==>
      r == Run(ParseCommand(args[0]).value, args[1..])
  {
    if |args| == 0 then NoCommand
    else
      match ParseCommand(args[0])
      case None => UnknownCommand
      case Some(cmd) =>
        if cmd != INIT && !initialized then NotInitialized
        else Run(cmd, args[1..])
  }

  const NoCommandText: string := "Please specify command."
  const MainNotInitializedText: string :=
    "Current directory is not initialized. Please use init command to initialize."

  function UnknownCommandText(name: string): string {
    "Unknown command " + name + "."
  }

  /** One run of `mainInternal` on a store and a working directory. */
  function MainEffect(s: Store, args: seq<string>, work: Files): (e: Effect)
    ensures e.out.Exit?
  {
    match RouteOf(args, s.initialized)
    case NoCommand => Effect(Exit(1, NoCommandText), s, work)
    case UnknownCommand => Effect(Exit(1, UnknownCommandText(args[0])), s, work)
    case NotInitialized => Effect(Exit(-2, MainNotInitializedText), s, work)
    case Run(cmd, arguments) =>
      var e := CommandEffect(cmd, s, arguments, work);
      if e.out.Escaped? then e.(out := Exit(1, UnknownCommandText(args[0]))) else e
  }

  /** `mainInternal(args)` on the gvt whose version controller is vc. */
  method MainInternal(vc: VersionController, args: seq<string>, work: Files)
    returns (out: Outcome, result: Files)
    modifies vc
    ensures Effect(out, vc.State(), result) == MainEffect(old(vc.State()), args, work)
  {
    result := work;
    if |args| == 0 {
      return Exit(1, NoCommandText), work;
    }
    var cmd := ParseCommand(args[0]);
    if cmd.None? {
      return Exit(1, UnknownCommandText(args[0])), work;
    }
    var arguments := args[1..];
    if cmd.value != INIT && !vc.isInitialized {
      return Exit(-2, MainNotInitializedText), work;
    }
    out, result := Execute(cmd.value, vc, arguments, work);
    if out.Escaped? {
      out := Exit(1, UnknownCommandText(args[0]));
    }
  }

  // ---------------------------------------------------------------------
  // What a run promises

  /** Without a command, with an unknown one, or before INIT, nothing changes. */
  lemma RefusedRuns(s: Store, args: seq<string>, work: Files)
    ensures |args| == 0 ==> MainEffect(s, args, work) == Effect(Exit(1, NoCommandText), s, work)
    ensures |args| > 0 && ParseCommand(args[0]).None? ==>
      MainEffect(s, args, work) == Effect(Exit(1, UnknownCommandText(args[0])), s, work)
    ensures |args| > 0 && !s.initialized && ParseCommand(args[0]).Some? && ParseCommand(args[0]) != Some(INIT) ==>
      MainEffect(s, args, work) == Effect(Exit(-2, MainNotInitializedText), s, work)
  {
  }

  /**
   * A known command runs on the remaining arguments when the directory is
   * initialized or the command is INIT; only an exception escaping it
   * changes the exit, to code 1.
   */
  lemma AcceptedRuns(s: Store, args: seq<string>, work: Files)
    requires |args| > 0 && ParseCommand(args[0]).Some?
    requires s.initialized || ParseCommand(args[0]) == Some(INIT)
    ensures var e := CommandEffect(ParseCommand(args[0]).value, s, args[1..], work);
      && (e.out.Exit? ==> MainEffect(s, args, work) == e)
      && (e.out.Escaped? ==> MainEffect(s, args, work) == e.(out := Exit(1, UnknownCommandText(args[0]))))
  {
  }

  /**
   * Every run keeps the invariant and every existing version, moves head by
   * at most one, and changes the working directory only by CHECKOUT.
   */
  lemma MainKeepsInvariant(s: Store, args: seq<string>, work: Files)
    requires Consistent(s)
    ensures var e := MainEffect(s, args, work);
      && Consistent(e.store)
      && (s.initialized ==> e.store.head == s.head || e.store.head == s.head + 1)
      && (forall id :: id in s.disk.versions ==> id in e.store.disk.versions && e.store.disk.versions[id] == s.disk.versions[id])
      && (e.work != work ==> |args| > 0 && ParseCommand(args[0]) == Some(CHECKOUT))
  {
    var r := RouteOf(args, s.initialized);
    if r.Run? {
      CommandKeepsInvariant(r.cmd, s, r.arguments, work);
      var e := CommandEffect(r.cmd, s, r.arguments, work);
      assert MainEffect(s, args, work).store == e.store;
      assert MainEffect(s, args, work).work == e.work;
    } else {
      assert MainEffect(s, args, work).store == s;
      assert MainEffect(s, args, work).work == work;
    }
  }

  /**
   * On a store just loaded from disk, VERSION without an argument never
   * escapes: a store that loads as initialized has an `ACTIVE` that parses.
   */
  lemma LoadedVersionNeverEscapes(d: Disk, args: seq<string>, work: Files)
    ensures CommandEffect(VERSION, Load(d), args, work).out.Exit?
  {
    var s := Load(d);
    if s.initialized && |args| == 0 {
      assert PersistedActive(s.disk).Some?;
    }
  }

  /** The first run in a directory without `.gvt` succeeds only for INIT. */
  lemma FirstRunNeedsInit(args: seq<string>, work: Files)
    requires |args| > 0 && ParseCommand(args[0]).Some?
    ensures var e := MainEffect(Load(EmptyDisk), args, work);
      ParseCommand(args[0]) == Some(INIT) ==>
        e.out == Exit(0, "Current directory initialized successfully.") && e.store.initialized && e.store.head == 0
    ensures var e := MainEffect(Load(EmptyDisk), args, work);
      ParseCommand(args[0]) != Some(INIT) ==>
        e == Effect(Exit(-2, MainNotInitializedText), Load(EmptyDisk), work)
  {
    LoadEmpty();
    InitOutcomes(Load(EmptyDisk), work);
  }
}
