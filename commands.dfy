/**
 * The enum `Command`: what each command does to the store and which exit it
 * ends with. `ExitHandler.exit(code, message)` ends the process, so each
 * `execute` here returns the first exit it reaches as its Outcome.
 */
module Commands {
  import opened Wrappers
  import opened Text
  import opened Snapshots
  import opened VersionControl
  import Gvt

  /** The enum constants, named as in the source so that `valueOf` matches them. */
  datatype Command = INIT | ADD | DETACH | COMMIT | HISTORY | VERSION | CHECKOUT

  /**
   * How `execute` ends: an exit with its code and message, or an
   * IllegalArgumentException (here a NumberFormatException) that escapes it.
   */
  datatype Outcome = Exit(code: int, message: string) | Escaped

  const NotInitializedText: string :=
    "Current directory is not initialized. Please use \"init\" command to initialize."

  // ---------------------------------------------------------------------
  // Arguments

  /** `arguments.length == 0 || arguments[0].startsWith("-")`. */
  predicate NoFileArgument(args: seq<string>)
    ensures NoFileArgument(args) <==> |args| == 0 || (|args[0]| > 0 && args[0][0] == '-')
  {
    |args| == 0 || StartsWith(args[0], "-")
  }

  /** The search of `extractMessage` from position i on. */
  function FindMessage(args: seq<string>, i: nat): (r: Option<string>)
    ensures r.Some? <==> exists j :: i <= j < |args| - 1 && args[j] == "-m"
    ensures r.Some? ==>
              exists j :: (i <= j < |args| - 1 && args[j] == "-m"
                           && (forall k :: i <= k < j ==> args[k] != "-m")
                           && r.value == CleanMessage(args[j + 1]))
    decreases |args| - i
  {
    if i >= |args| - 1 then None
    else if args[i] == "-m" then Some(CleanMessage(args[i + 1]))
    else FindMessage(args, i + 1)
  }

  /**
   * `extractMessage(args)`: the argument after the first "-m" that has one,
   * with a leading and a trailing quote removed and trimmed; None (null)
   * when there is no such pair.
   */
  function ExtractMessage(args: seq<string>): (r: Option<string>)
    ensures r.Some? <==> exists j :: 0 <= j < |args| - 1 && args[j] == "-m"
    ensures r.Some? && |r.value| > 0 ==> !IsBlank(r.value[0]) && !IsBlank(r.value[|r.value| - 1])
  {
    FindMessage(args, 0)
  }

  /** A quoted message after "-m" comes back without its quotes. */
  lemma ExtractQuotedMessage(file: string, body: string)
    requires file != "-m"
    requires |body| == 0 || (!IsBlank(body[0]) && !IsBlank(body[|body| - 1]))
    ensures ExtractMessage([file, "-m", "\"" + body + "\""]) == Some(body)
  {
    var args := [file, "-m", "\"" + body + "\""];
    assert FindMessage(args, 1) == Some(CleanMessage(args[2]));
    CleanQuoted(body);
  }

  /** A final "-m" with nothing after it is ignored. */
  lemma DanglingFlagIgnored(file: string)
    requires file != "-m"
    ensures ExtractMessage([file, "-m"]) == None
  {
  }

  /** `-last N` asks for limit N - 1 in `int` arithmetic; anything else asks for all (-1). */
  function HistoryLimit(args: seq<string>): (r: int)
    ensures MinInt <= r <= MaxInt
    ensures r != -1 ==> |args| >= 2 && args[0] == "-last" && ParseInt(args[1]).Some?
  {
    if |args| >= 2 && args[0] == "-last" then
      match ParseInt(args[1])
      case Some(n) => Wrap32(n - 1)
      case None => -1
    else -1
  }

  /** "-last N" for N >= 1 lists exactly N lines; "-last 0" lists everything. */
  lemma HistoryLastCount(head: int, n: int)
    requires 0 <= head <= MaxInt && 0 <= n <= MaxInt
    ensures var limit := HistoryLimit(["-last", IntToString(n)]);
      && (n == 0 ==> limit == -1)
      && (n >= 1 ==> |Ids(head, HistoryLast(head, limit))| == n)
  {
    ParseIntRoundTrip(n);
    if n >= 1 {
      HistoryLimited(head, n - 1);
    }
  }

  /** Without the flag, or with an unparsable count, the whole history is asked for. */
  lemma HistoryLimitDefault(args: seq<string>)
    requires |args| < 2 || args[0] != "-last" || ParseInt(args[1]).None?
    ensures HistoryLimit(args) == -1
  {
  }

  /**
   * `fullMessage` of ADD and COMMIT: the user's message if a "-m" pair is
   * given, else the command's fixed text.
   */
  function FullMessage(args: seq<string>, baseMessage: string): (r: string)
    ensures (forall j :: 0 <= j < |args| - 1 ==> args[j] != "-m") ==> r == baseMessage
    ensures (exists j :: 0 <= j < |args| - 1 && args[j] == "-m") ==> Some(r) == ExtractMessage(args)
  {
    ExtractMessage(args).GetOr(baseMessage)
  }

  /** The fixed part of DETACH's message. */
  function DetachedText(name: string): (r: string)
    ensures StartsWith(r, "File detached successfully. File: ")
    ensures '\n' !in name ==> '\n' !in r
  {
    var prefix := "File detached successfully. File: ";
    assert '\n' !in prefix;
    assert (prefix + name)[..|prefix|] == prefix;
    prefix + name
  }

  /** The user's message, if any, on a line of its own. */
  function UserLine(message: Option<string>): (r: string)
    ensures |r| == 0 <==> message.None?
    ensures |r| > 0 ==> r[0] == '\n'
    ensures message.Some? ==> r[1..] == message.value
  {
    match message
    case None => ""
    case Some(m) => "\n" + m
  }

  /** The message stored (and printed) by DETACH: the fixed text, then the user's on a new line. */
  function DetachMessage(args: seq<string>): (r: string)
    requires |args| > 0
    ensures StartsWith(r, DetachedText(args[0]))
    ensures ExtractMessage(args).None? <==> r == DetachedText(args[0])
  {
    var r := DetachedText(args[0]) + UserLine(ExtractMessage(args));
    assert r[..|DetachedText(args[0])|] == DetachedText(args[0]);
    r
  }

  /** With a "-m" pair, DETACH's message is the fixed text, a newline, and the user's message. */
  lemma DetachUserText(args: seq<string>, text: string)
    requires |args| > 0 && ExtractMessage(args) == Some(text)
    ensures DetachMessage(args) == DetachedText(args[0]) + "\n" + text
  {
    var d := DetachedText(args[0]);
    assert DetachMessage(args) == d + UserLine(Some(text));
    UserLineText(d, text);
  }

  /** Appending the user's line puts the newline between the two texts. */
  lemma UserLineText(d: string, text: string)
    ensures d + UserLine(Some(text)) == d + "\n" + text
  {
    assert d + ("\n" + text) == d + "\n" + text;
  }

  /** `detach <name> -m "<text>"` stores and prints the fixed text, then the user's text on the next line. */
  lemma DetachQuotedMessage(name: string, text: string)
    requires name != "-m"
    requires |text| == 0 || (!IsBlank(text[0]) && !IsBlank(text[|text| - 1]))
    ensures DetachMessage([name, "-m", "\"" + text + "\""]) == DetachedText(name) + "\n" + text
  {
    ExtractQuotedMessage(name, text);
    DetachUserText([name, "-m", "\"" + text + "\""], text);
  }

  /** The user's message of DETACH goes on a line of its own, so the history shows only the fixed text. */
  lemma DetachHistoryLine(args: seq<string>)
    requires |args| > 0 && '\n' !in args[0]
    ensures FirstLine(DetachMessage(args)) == DetachedText(args[0])
  {
    FirstLineOfLine(DetachMessage(args), DetachedText(args[0]), UserLine(ExtractMessage(args)));
  }

  /** The version id VERSION shows: the persisted active one, or the parsed argument. */
  function RequestedVersion(args: seq<string>, d: Disk): (r: Option<int>)
    ensures r.Some? ==> MinInt <= r.value <= MaxInt
    ensures |args| == 0 && d.activeFile.None? ==> r == Some(0)
  {
    if |args| == 0 then PersistedActive(d) else ParseInt(args[0])
  }

  // ---------------------------------------------------------------------
  // What each command does, as a function of the store before it

  /** The exit a command ends with, the store after it, and the working directory after it. */
  datatype Effect = Effect(out: Outcome, store: Store, work: Files)

  function InitEffect(s: Store, work: Files): (e: Effect)
    ensures e.work == work && e.out.Exit?
  {
    if s.initialized then Effect(Exit(10, "Current directory is already initialized."), s, work)
    else Effect(Exit(0, "Current directory initialized successfully."), InitializeStore(s), work)
  }

  function AddEffect(s: Store, args: seq<string>, work: Files): (e: Effect)
    ensures e.work == work && e.out.Exit?
  {
    if !s.initialized then Effect(Exit(-2, NotInitializedText), s, work)
    else if NoFileArgument(args) then Effect(Exit(20, "Please specify file to add."), s, work)
    else if !FileExists(work, args[0]) then Effect(Exit(21, "File not found. File: " + args[0]), s, work)
    else if IsTracked(s.disk.index, args[0]) then Effect(Exit(0, "File already added. File: " + args[0]), s, work)
    else
      Effect(Exit(0, "File added successfully. File: " + args[0]),
             CreateVersion(TrackName(s, BaseName(args[0])), FullMessage(args, "File added successfully. File: " + args[0]), work), work)
  }

  function DetachEffect(s: Store, args: seq<string>, work: Files): (e: Effect)
    ensures e.work == work && e.out.Exit?
  {
    if !s.initialized then Effect(Exit(-2, NotInitializedText), s, work)
    else if NoFileArgument(args) then Effect(Exit(30, "Please specify file to detach."), s, work)
    else if !IsTracked(s.disk.index, args[0]) then Effect(Exit(0, "File is not added to gvt. File: " + args[0]), s, work)
    else
      Effect(Exit(0, DetachMessage(args)),
             CreateVersion(UntrackName(s, args[0]), DetachMessage(args), work), work)
  }

  function CommitEffect(s: Store, args: seq<string>, work: Files): (e: Effect)
    ensures e.work == work && e.out.Exit?
  {
    if !s.initialized then Effect(Exit(-2, NotInitializedText), s, work)
    else if NoFileArgument(args) then Effect(Exit(50, "Please specify file to commit."), s, work)
    else if !FileExists(work, args[0]) then Effect(Exit(51, "File not found. File: " + args[0]), s, work)
    else if !IsTracked(s.disk.index, args[0]) then Effect(Exit(0, "File is not added to gvt. File: " + args[0]), s, work)
    else
      Effect(Exit(0, "File committed successfully. File: " + args[0]),
             CreateVersion(s, FullMessage(args, "File committed successfully. File: " + args[0]), work), work)
  }

  /** HISTORY only reads. */
  function HistoryEffect(s: Store, args: seq<string>, work: Files): (e: Effect)
    ensures e.store == s && e.work == work && e.out.Exit?
  {
    if !s.initialized then Effect(Exit(-2, NotInitializedText), s, work)
    else Effect(Exit(0, HistoryText(s.disk, s.head, HistoryLimit(args))), s, work)
  }

  /** VERSION only reads; it is the one command that can end with an escaping exception. */
  function VersionEffect(s: Store, args: seq<string>, work: Files): (e: Effect)
    ensures e.store == s && e.work == work
    ensures e.out.Escaped? ==> s.initialized && |args| == 0 && PersistedActive(s.disk).None?
  {
    if !s.initialized then Effect(Exit(-2, NotInitializedText), s, work)
    else if |args| > 0 && ParseInt(args[0]).None? then
      Effect(Exit(60, "Invalid version number: " + args[0] + "."), s, work)
    else
      match RequestedVersion(args, s.disk)
      case None => Effect(Escaped, s, work)
      case Some(id) =>
        if id !in s.disk.versions then Effect(Exit(60, "Invalid version number: " + IntToString(id)), s, work)
        else Effect(Exit(0, Details(s.disk.versions, id)), s, work)
  }

  /** CHECKOUT changes the working directory and nothing in the store. */
  function CheckoutEffect(s: Store, args: seq<string>, work: Files): (e: Effect)
    ensures e.store == s && e.out.Exit?
    ensures e.out.code != 0 ==> e.work == work
  {
    if !s.initialized then Effect(Exit(-2, NotInitializedText), s, work)
    else if |args| == 0 then Effect(Exit(60, "Invalid version number: (none)"), s, work)
    else
      match ParseInt(args[0])
      case None => Effect(Exit(60, "Invalid version number: " + args[0]), s, work)
      case Some(id) =>
        if id !in s.disk.versions then Effect(Exit(60, "Invalid version number: " + IntToString(id)), s, work)
        else Effect(Exit(0, "Checkout successful for version: " + IntToString(id)), s, Restore(s.disk.versions, id, work))
  }

  /** `command.execute`: only VERSION can escape, only INIT, ADD, DETACH and COMMIT write the store, only CHECKOUT the files. */
  function CommandEffect(cmd: Command, s: Store, args: seq<string>, work: Files): (e: Effect)
    ensures e.out.Escaped? ==> cmd == VERSION
    ensures cmd in {HISTORY, VERSION, CHECKOUT} ==> e.store == s
    ensures cmd != CHECKOUT ==> e.work == work
  {
    match cmd
    case INIT => InitEffect(s, work)
    case ADD => AddEffect(s, args, work)
    case DETACH => DetachEffect(s, args, work)
    case COMMIT => CommitEffect(s, args, work)
    case HISTORY => HistoryEffect(s, args, work)
    case VERSION => VersionEffect(s, args, work)
    case CHECKOUT => CheckoutEffect(s, args, work)
  }

  // ---------------------------------------------------------------------
  // What the commands promise

  /** INIT never touches an initialized store; on a fresh one it creates version 0. */
  lemma InitOutcomes(s: Store, work: Files)
    requires Consistent(s)
    ensures var e := InitEffect(s, work);
      && (s.initialized ==> e.out.code == 10 && e.store == s)
      && (!s.initialized ==>
            && e.out == Exit(0, "Current directory initialized successfully.")
            && e.store.initialized && e.store.head == 0 && e.store.active == 0
            && e.store.disk.versions == map[0 := Version(Some(InitMessage), Some(map[]))])
  {
    if !s.initialized {
      InitializeFresh(s);
    }
  }

  /** ADD, DETACH and COMMIT without a file argument exit 20, 30 and 50 and change nothing. */
  lemma MissingFileArgument(cmd: Command, s: Store, args: seq<string>, work: Files)
    requires cmd in {ADD, DETACH, COMMIT} && s.initialized && NoFileArgument(args)
    ensures var e := CommandEffect(cmd, s, args, work);
      && e.out.Exit? && e.out.code == (match cmd case ADD => 20 case DETACH => 30 case _ => 50)
      && e.store == s && e.work == work
  {
  }

  /**
   * A successful ADD of a plain file name snapshots that file with its
   * current bytes, under the user's message or the default one; an ADD of
   * a tracked or missing file creates nothing.
   */
  lemma AddOutcomes(s: Store, args: seq<string>, work: Files)
    requires Consistent(s) && s.initialized && !NoFileArgument(args)
    ensures var e := AddEffect(s, args, work);
      && (!FileExists(work, args[0]) ==> e == Effect(Exit(21, "File not found. File: " + args[0]), s, work))
      && (FileExists(work, args[0]) && IsTracked(s.disk.index, args[0]) ==>
            e == Effect(Exit(0, "File already added. File: " + args[0]), s, work))
      && (FileExists(work, args[0]) && !IsTracked(s.disk.index, args[0]) ==>
            && e.out == Exit(0, "File added successfully. File: " + args[0])
            && e.store.head == s.head + 1
            && e.store.disk.index == Some(IndexList(s.disk.index) + [BaseName(args[0])])
            && StoredMessage(e.store.disk.versions, e.store.head) == Some(FullMessage(args, "File added successfully. File: " + args[0]))
            && ('/' !in args[0] ==> StoredFile(e.store.disk.versions, e.store.head, args[0]) == Some(work[args[0]])))
  {
    if FileExists(work, args[0]) && !IsTracked(s.disk.index, args[0]) {
      var name := BaseName(args[0]);
      var t := TrackName(s, name);
      TrackPreserves(s, name);
      var r := CreateVersion(t, FullMessage(args, "File added successfully. File: " + args[0]), work);
      assert AddEffect(s, args, work).store == r;
      CreateVersionFresh(t, FullMessage(args, "File added successfully. File: " + args[0]), work);
      if '/' !in args[0] {
        BaseNameOfPlainName(args[0]);
        assert IsTracked(t.disk.index, args[0]);
        assert StoredFile(r.disk.versions, r.head, args[0]) == Some(work[args[0]]);
      }
    }
  }

  /** One successful ADD of a single untracked path, as a step of the invariant. */
  lemma AddStep(s: Store, path: string, work: Files)
    requires Consistent(s) && s.initialized && FileExists(work, path) && !StartsWith(path, "-")
    requires !IsTracked(s.disk.index, path)
    ensures var r := AddEffect(s, [path], work).store;
      && Consistent(r) && r.initialized
      && r.head == s.head + 1
      && r.disk.index == Some(IndexList(s.disk.index) + [BaseName(path)])
  {
    var t := TrackName(s, BaseName(path));
    TrackPreserves(s, BaseName(path));
    assert AddEffect(s, [path], work).store == CreateVersion(t, FullMessage([path], "File added successfully. File: " + path), work);
    CreateVersionFresh(t, FullMessage([path], "File added successfully. File: " + path), work);
  }

  /**
   * Adding a path with a directory part twice appends its base name twice:
   * membership is checked on the full path, but only the base name is stored.
   */
  lemma AddPathTwice(s: Store, path: string, work: Files)
    requires Consistent(s) && s.initialized && '/' in path && FileExists(work, path) && !StartsWith(path, "-")
    ensures var once := AddEffect(s, [path], work).store;
      var twice := AddEffect(once, [path], work).store;
      && twice.disk.index == Some(IndexList(s.disk.index) + [BaseName(path), BaseName(path)])
      && twice.head == s.head + 2
  {
    var name := BaseName(path);
    PathNeverTracked(s, path);
    AddStep(s, path, work);
    var once := AddEffect(s, [path], work).store;
    assert IndexList(once.disk.index) == IndexList(s.disk.index) + [name];
    PathNeverTracked(once, path);
    AddStep(once, path, work);
    var twice := AddEffect(once, [path], work).store;
    assert twice.disk.index == Some(IndexList(s.disk.index) + [name] + [name]);
    assert IndexList(s.disk.index) + [name] + [name] == IndexList(s.disk.index) + [name, name];
  }

  /** For a plain file name ADD is idempotent: the second ADD reports the file as added and changes nothing. */
  lemma AddPlainTwice(s: Store, name: string, work: Files)
    requires Consistent(s) && s.initialized && '/' !in name && name in work && !StartsWith(name, "-")
    ensures var once := AddEffect(s, [name], work).store;
      AddEffect(once, [name], work) == Effect(Exit(0, "File already added. File: " + name), once, work)
  {
    var once := AddEffect(s, [name], work).store;
    if !IsTracked(s.disk.index, name) {
      AddStep(s, name, work);
      BaseNameOfPlainName(name);
      assert IsTracked(once.disk.index, name);
    }
  }

  /**
   * `add a.txt/` finds a.txt, since `Paths.get` drops the trailing '/', and
   * tracks "a.txt"; the argument is echoed as typed.
   */
  lemma AddTrailingSlash(s: Store, name: string, work: Files)
    requires Consistent(s) && s.initialized && |name| > 0 && '/' !in name && name[0] != '-' && name in work
    ensures var e := AddEffect(s, [name + "/"], work);
      && e.out == Exit(0, "File added successfully. File: " + name + "/")
      && e.store.disk.index == Some(IndexList(s.disk.index) + [name])
  {
    var path := name + "/";
    JavaPathTrailingSlash(name);
    assert path[..1] == name[..1];
    assert DropTrailingSlashes(path) == name;
    BaseNameOfPlainName(name);
    assert '/' in path by { assert path[|path| - 1] == '/'; }
    PathNeverTracked(s, path);
    assert AddEffect(s, [path], work).store == CreateVersion(TrackName(s, name), FullMessage([path], "File added successfully. File: " + path), work);
  }

  /**
   * `add dir/a.txt` tracks only the file name "a.txt": `addFile` keeps the
   * last name of the path, while the existence check used the whole path.
   */
  lemma AddNestedPath(s: Store, dir: string, name: string, work: Files)
    requires Consistent(s) && s.initialized && |dir| > 0 && dir[0] != '-'
    requires |name| > 0 && '/' !in name && FileExists(work, dir + "/" + name)
    ensures var e := AddEffect(s, [dir + "/" + name], work);
      && e.out == Exit(0, "File added successfully. File: " + dir + "/" + name)
      && e.store.disk.index == Some(IndexList(s.disk.index) + [name])
  {
    var path := dir + "/" + name;
    assert path[..1] == dir[..1];
    assert path[|path| - 1] == name[|name| - 1];
    assert DropTrailingSlashes(path) == path;
    LastComponentAfterSlash(dir, name);
    assert '/' in path by { assert path[|dir|] == '/'; }
    PathNeverTracked(s, path);
    AddOutcomes(s, [path], work);
  }

  /**
   * `commit a.txt/` of a tracked a.txt finds the file but not the entry:
   * the index is searched for the argument as typed, so nothing is committed.
   */
  lemma CommitTrailingSlash(s: Store, name: string, work: Files)
    requires Consistent(s) && s.initialized && |name| > 0 && '/' !in name && name[0] != '-' && name in work
    ensures CommitEffect(s, [name + "/"], work)
      == Effect(Exit(0, "File is not added to gvt. File: " + name + "/"), s, work)
  {
    var path := name + "/";
    JavaPathTrailingSlash(name);
    assert path[..1] == name[..1];
    assert '/' in path by { assert path[|path| - 1] == '/'; }
    PathNeverTracked(s, path);
  }

  /**
   * DETACH never looks at the working directory. A tracked name loses its
   * first index entry and a version is created; when the name was listed
   * once, that version's snapshot no longer holds it.
   */
  lemma DetachOutcomes(s: Store, args: seq<string>, work: Files)
    requires Consistent(s) && s.initialized && !NoFileArgument(args)
    ensures var e := DetachEffect(s, args, work);
      && (!IsTracked(s.disk.index, args[0]) ==> e.out == Exit(0, "File is not added to gvt. File: " + args[0]) && e.store == s)
      && (IsTracked(s.disk.index, args[0]) ==>
            && e.out == Exit(0, DetachMessage(args))
            && e.store.head == s.head + 1
            && e.store.disk.index == Some(RemoveFirst(s.disk.index.value, args[0]))
            && StoredMessage(e.store.disk.versions, e.store.head) == Some(DetachMessage(args))
            && (multiset(s.disk.index.value)[args[0]] == 1 ==>
                  StoredFile(e.store.disk.versions, e.store.head, args[0]) == None))
      && e.work == work
  {
    if IsTracked(s.disk.index, args[0]) {
      var l := s.disk.index.value;
      UntrackPreserves(s, args[0]);
      CreateVersionFresh(UntrackName(s, args[0]), DetachMessage(args), work);
      RemoveFirstPresent(l, args[0]);
      if multiset(l)[args[0]] == 1 {
        assert multiset(RemoveFirst(l, args[0]))[args[0]] == 0;
      }
    }
  }

  /**
   * The existence check of COMMIT comes before the tracking check; a
   * successful COMMIT keeps the index and snapshots the file's current bytes.
   */
  lemma CommitOutcomes(s: Store, args: seq<string>, work: Files)
    requires Consistent(s) && s.initialized && !NoFileArgument(args)
    ensures var e := CommitEffect(s, args, work);
      && (!FileExists(work, args[0]) ==> e == Effect(Exit(51, "File not found. File: " + args[0]), s, work))
      && (FileExists(work, args[0]) && !IsTracked(s.disk.index, args[0]) ==>
            e == Effect(Exit(0, "File is not added to gvt. File: " + args[0]), s, work))
      && (FileExists(work, args[0]) && IsTracked(s.disk.index, args[0]) ==>
            && e.out == Exit(0, "File committed successfully. File: " + args[0])
            && e.store.head == s.head + 1
            && e.store.disk.index == s.disk.index
            && StoredMessage(e.store.disk.versions, e.store.head) == Some(FullMessage(args, "File committed successfully. File: " + args[0]))
            && StoredFile(e.store.disk.versions, e.store.head, args[0]) == Some(work[args[0]]))
  {
    if FileExists(work, args[0]) && IsTracked(s.disk.index, args[0]) {
      CreateVersionFresh(s, FullMessage(args, "File committed successfully. File: " + args[0]), work);
    }
  }

  /** VERSION and CHECKOUT with an id that is not a version exit 60 and change nothing. */
  lemma InvalidVersionRefused(s: Store, id: int, work: Files)
    requires Consistent(s) && s.initialized && (id < 0 || id > s.head)
    ensures var args := [IntToString(id)];
      MinInt <= id <= MaxInt ==>
        && VersionEffect(s, args, work) == Effect(Exit(60, "Invalid version number: " + IntToString(id)), s, work)
        && CheckoutEffect(s, args, work) == Effect(Exit(60, "Invalid version number: " + IntToString(id)), s, work)
  {
    if MinInt <= id <= MaxInt {
      ParseIntRoundTrip(id);
    }
  }

  /** A successful CHECKOUT writes back every file of the version and keeps the rest of the working directory. */
  lemma CheckoutOutcome(s: Store, id: int, work: Files)
    requires Consistent(s) && s.initialized && 0 <= id <= s.head && id <= MaxInt
    ensures var e := CheckoutEffect(s, [IntToString(id)], work);
      var files := s.disk.versions[id].files.value;
      && e.out == Exit(0, "Checkout successful for version: " + IntToString(id))
      && e.store == s
      && (forall n :: n in files ==> n in e.work && e.work[n] == files[n])
      && (forall n :: n in work && n !in files ==> e.work[n] == work[n])
      && e.work.Keys == work.Keys + files.Keys
  {
    ParseIntRoundTrip(id);
  }

  /**
   * What a command must keep: the invariant, every existing version, and a
   * head that moves forward by at most one, and only on a successful exit.
   */
  ghost predicate Kept(s: Store, e: Effect) {
    && Consistent(e.store)
    && (s.initialized ==> e.store.head == s.head || e.store.head == s.head + 1)
    && (e.store.head == s.head + 1 ==> e.out.Exit? && e.out.code == 0)
    && (forall id :: id in s.disk.versions ==> id in e.store.disk.versions && e.store.disk.versions[id] == s.disk.versions[id])
  }

  /** A new version keeps what a command must keep, exiting 0. */
  lemma CreateVersionKept(s: Store, t: Store, message: string, out: Outcome, work: Files)
    requires Consistent(t) && t.initialized && s.initialized
    requires t.head == s.head && t.disk.versions == s.disk.versions
    requires out.Exit? && out.code == 0
    ensures Kept(s, Effect(out, CreateVersion(t, message, work), work))
  {
    CreateVersionFresh(t, message, work);
  }

  lemma InitKept(s: Store, work: Files)
    requires Consistent(s)
    ensures Kept(s, InitEffect(s, work)) && InitEffect(s, work).work == work
  {
    if !s.initialized {
      InitializeFresh(s);
    }
  }

  lemma AddKept(s: Store, args: seq<string>, work: Files)
    requires Consistent(s)
    ensures Kept(s, AddEffect(s, args, work)) && AddEffect(s, args, work).work == work
  {
    if s.initialized && !NoFileArgument(args) && FileExists(work, args[0]) && !IsTracked(s.disk.index, args[0]) {
      var t := TrackName(s, BaseName(args[0]));
      TrackPreserves(s, BaseName(args[0]));
      CreateVersionKept(s, t, FullMessage(args, "File added successfully. File: " + args[0]), Exit(0, "File added successfully. File: " + args[0]), work);
    }
  }

  lemma DetachKept(s: Store, args: seq<string>, work: Files)
    requires Consistent(s)
    ensures Kept(s, DetachEffect(s, args, work)) && DetachEffect(s, args, work).work == work
  {
    if s.initialized && !NoFileArgument(args) && IsTracked(s.disk.index, args[0]) {
      var t := UntrackName(s, args[0]);
      UntrackPreserves(s, args[0]);
      CreateVersionKept(s, t, DetachMessage(args), Exit(0, DetachMessage(args)), work);
    }
  }

  lemma CommitKept(s: Store, args: seq<string>, work: Files)
    requires Consistent(s)
    ensures Kept(s, CommitEffect(s, args, work)) && CommitEffect(s, args, work).work == work
  {
    if s.initialized && !NoFileArgument(args) && FileExists(work, args[0]) && IsTracked(s.disk.index, args[0]) {
      CreateVersionKept(s, s, FullMessage(args, "File committed successfully. File: " + args[0]), Exit(0, "File committed successfully. File: " + args[0]), work);
    }
  }

  /**
   * Every command keeps the invariant, moves head forward by at most one,
   * and leaves every existing version as it was; a version is created only
   * by ADD, DETACH or COMMIT ending with exit code 0, and only CHECKOUT
   * changes the working directory.
   */
  lemma CommandKeepsInvariant(cmd: Command, s: Store, args: seq<string>, work: Files)
    requires Consistent(s)
    ensures var e := CommandEffect(cmd, s, args, work);
      && Consistent(e.store)
      && (s.initialized ==> e.store.head == s.head || e.store.head == s.head + 1)
      && (e.store.head == s.head + 1 ==> cmd in {ADD, DETACH, COMMIT} && e.out.Exit? && e.out.code == 0)
      && (forall id :: id in s.disk.versions ==> id in e.store.disk.versions && e.store.disk.versions[id] == s.disk.versions[id])
      && (e.work != work ==> cmd == CHECKOUT)
  {
    var e := CommandEffect(cmd, s, args, work);
    match cmd
    case INIT =>
      assert e == InitEffect(s, work);
      InitKept(s, work);
    case ADD =>
      assert e == AddEffect(s, args, work);
      AddKept(s, args, work);
    case DETACH =>
      assert e == DetachEffect(s, args, work);
      DetachKept(s, args, work);
    case COMMIT =>
      assert e == CommitEffect(s, args, work);
      CommitKept(s, args, work);
    case HISTORY =>
      assert e.store == s && e.work == work;
    case VERSION =>
      assert e.store == s && e.work == work;
    case CHECKOUT =>
      assert e.store == s;
  }

  // ---------------------------------------------------------------------
  // execute, command by command

  method ExecuteInit(vc: VersionController, work: Files) returns (out: Outcome)
    modifies vc
    ensures out == InitEffect(old(vc.State()), work).out
    ensures vc.State() == InitEffect(old(vc.State()), work).store
  {
    if vc.isInitialized {
      return Exit(10, "Current directory is already initialized.");
    }
    // Gvt.initialize() swallows the exception of an existing .gvt directory
    var _ := vc.Initialize();
    out := Exit(0, "Current directory initialized successfully.");
  }

  method ExecuteAdd(vc: VersionController, args: seq<string>, work: Files) returns (out: Outcome)
    modifies vc
    ensures out == AddEffect(old(vc.State()), args, work).out
    ensures vc.State() == AddEffect(old(vc.State()), args, work).store
  {
    if !vc.isInitialized {
      return Exit(-2, NotInitializedText);
    }
    if NoFileArgument(args) {
      return Exit(20, "Please specify file to add.");
    }
    var fileName := args[0];
    var userMessage := ExtractMessage(args);
    if !FileExists(work, fileName) {
      return Exit(21, "File not found. File: " + fileName);
    }
    var added := Gvt.IsFileAlreadyAdded(vc, fileName);
    if added {
      return Exit(0, "File already added. File: " + fileName);
    }
    vc.AddFile(fileName);
    var baseMessage := "File added successfully. File: " + fileName;
    var fullMessage := if userMessage.None? then baseMessage else userMessage.value;
    vc.CreateNewVersion(fullMessage, work);
    out := Exit(0, baseMessage);
  }

  method ExecuteDetach(vc: VersionController, args: seq<string>, work: Files) returns (out: Outcome)
    modifies vc
    ensures out == DetachEffect(old(vc.State()), args, work).out
    ensures vc.State() == DetachEffect(old(vc.State()), args, work).store
  {
    if !vc.isInitialized {
      return Exit(-2, NotInitializedText);
    }
    if NoFileArgument(args) {
      return Exit(30, "Please specify file to detach.");
    }
    var fileName := args[0];
    var userMessage := ExtractMessage(args);
    var added := Gvt.IsFileAlreadyAdded(vc, fileName);
    if !added {
      return Exit(0, "File is not added to gvt. File: " + fileName);
    }
    vc.DetachFile(fileName);
    // the fixed text, followed by the user's message on a new line when there is one
    var fullMessage := DetachedText(fileName) + UserLine(userMessage);
    vc.CreateNewVersion(fullMessage, work);
    out := Exit(0, fullMessage);
  }

  method ExecuteCommit(vc: VersionController, args: seq<string>, work: Files) returns (out: Outcome)
    modifies vc
    ensures out == CommitEffect(old(vc.State()), args, work).out
    ensures vc.State() == CommitEffect(old(vc.State()), args, work).store
  {
    if !vc.isInitialized {
      return Exit(-2, NotInitializedText);
    }
    if NoFileArgument(args) {
      return Exit(50, "Please specify file to commit.");
    }
    var fileName := args[0];
    var userMessage := ExtractMessage(args);
    if !FileExists(work, fileName) {
      return Exit(51, "File not found. File: " + fileName);
    }
    var added := Gvt.IsFileAlreadyAdded(vc, fileName);
    if !added {
      return Exit(0, "File is not added to gvt. File: " + fileName);
    }
    vc.CommitFile(fileName);
    var baseMessage := "File committed successfully. File: " + fileName;
    var fullMessage := if userMessage.None? then baseMessage else userMessage.value;
    vc.CreateNewVersion(fullMessage, work);
    out := Exit(0, baseMessage);
  }

  method ExecuteHistory(vc: VersionController, args: seq<string>) returns (out: Outcome)
    ensures !vc.isInitialized ==> out == Exit(-2, NotInitializedText)
    ensures vc.isInitialized ==> out == Exit(0, HistoryText(vc.DiskState(), vc.head, HistoryLimit(args)))
  {
    if !vc.isInitialized {
      return Exit(-2, NotInitializedText);
    }
    var limit := -1;
    if |args| >= 2 && args[0] == "-last" {
      var n := ParseInt(args[1]);
      if n.Some? {
        limit := Wrap32(n.value - 1);
      }
    }
    assert limit == HistoryLimit(args);
    var text := vc.PrintHistory(limit);
    out := Exit(0, text);
  }

  method ExecuteVersion(vc: VersionController, args: seq<string>) returns (out: Outcome)
    ensures !vc.isInitialized ==> out == Exit(-2, NotInitializedText)
    ensures vc.isInitialized && |args| > 0 && ParseInt(args[0]).None? ==>
      out == Exit(60, "Invalid version number: " + args[0] + ".")
    ensures vc.isInitialized && |args| == 0 && PersistedActive(vc.DiskState()).None? ==> out == Escaped
    ensures vc.isInitialized && RequestedVersion(args, vc.DiskState()).Some? ==>
      var id := RequestedVersion(args, vc.DiskState()).value;
      out == if id in vc.versions then Exit(0, Details(vc.versions, id))
             else Exit(60, "Invalid version number: " + IntToString(id))
  {
    if !vc.isInitialized {
      return Exit(-2, NotInitializedText);
    }
    var id: int;
    if |args| == 0 {
      var active := Gvt.GetActiveVersion(vc);
      if active.None? {
        return Escaped;
      }
      id := active.value;
    } else {
      var parsed := ParseInt(args[0]);
      if parsed.None? {
        return Exit(60, "Invalid version number: " + args[0] + ".");
      }
      id := parsed.value;
    }
    var found := Gvt.VersionExists(vc, id);
    if !found {
      return Exit(60, "Invalid version number: " + IntToString(id));
    }
    var text := vc.PrintVersionDetails(id);
    out := Exit(0, text);
  }

  method ExecuteCheckout(vc: VersionController, args: seq<string>, work: Files) returns (out: Outcome, result: Files)
    ensures !vc.isInitialized ==> out == Exit(-2, NotInitializedText) && result == work
    ensures vc.isInitialized && |args| == 0 ==> out == Exit(60, "Invalid version number: (none)") && result == work
    ensures vc.isInitialized && |args| > 0 && ParseInt(args[0]).None? ==>
      out == Exit(60, "Invalid version number: " + args[0]) && result == work
    ensures vc.isInitialized && |args| > 0 && ParseInt(args[0]).Some? ==>
      var id := ParseInt(args[0]).value;
      if id in vc.versions then
        out == Exit(0, "Checkout successful for version: " + IntToString(id))
        && result == Restore(vc.versions, id, work)
      else
        out == Exit(60, "Invalid version number: " + IntToString(id)) && result == work
  {
    result := work;
    if !vc.isInitialized {
      return Exit(-2, NotInitializedText), work;
    }
    if |args| == 0 {
      return Exit(60, "Invalid version number: (none)"), work;
    }
    var parsed := ParseInt(args[0]);
    if parsed.None? {
      return Exit(60, "Invalid version number: " + args[0]), work;
    }
    var id := parsed.value;
    var found := Gvt.VersionExists(vc, id);
    if !found {
      return Exit(60, "Invalid version number: " + IntToString(id)), work;
    }
    result := vc.CheckoutVersion(id, work);
    out := Exit(0, "Checkout successful for version: " + IntToString(id));
  }

  /** `command.execute(gvt, arguments)`. */
  method Execute(cmd: Command, vc: VersionController, args: seq<string>, work: Files)
    returns (out: Outcome, result: Files)
    modifies vc
    ensures Effect(out, vc.State(), result) == CommandEffect(cmd, old(vc.State()), args, work)
  {
    result := work;
    match cmd
    case INIT => out := ExecuteInit(vc, work);
    case ADD => out := ExecuteAdd(vc, args, work);
    case DETACH => out := ExecuteDetach(vc, args, work);
    case COMMIT => out := ExecuteCommit(vc, args, work);
    case HISTORY => out := ExecuteHistory(vc, args);
    case VERSION => out := ExecuteVersion(vc, args);
    case CHECKOUT => out, result := ExecuteCheckout(vc, args, work);
  }
}
