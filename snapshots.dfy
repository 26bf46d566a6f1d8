/**
 * The state of a gvt store as values: the persisted `.gvt` directory, the
 * counters that `VersionController` keeps in memory, and the pure
 * transitions that its mutating methods perform on them. The class in
 * version_controller.dfy is proved to carry out exactly these transitions;
 * the lemmas here state what the transitions promise.
 */
module Snapshots {
  import opened Wrappers
  import opened Text

  type Bytes = seq<bv8>

  /**
   * Files by name: the working directory (keyed by relative path, in the
   * form `Paths.get` prints it), or a version's `files/` directory.
   */
  type Files = map<string, Bytes>

  /** `Files.exists(Paths.get(path))` for a file of the working directory. */
  predicate FileExists(work: Files, path: string)
    ensures '/' !in path ==> (FileExists(work, path) <==> path in work)
  {
    JavaPath(path) in work
  }

  /** `versions/<id>/`: its `message.txt` and its `files/` directory, each possibly missing. */
  datatype Version = Version(message: Option<string>, files: Option<Files>)

  /**
   * The `.gvt` directory: whether it exists, the `HEAD` and `ACTIVE` files,
   * `index.txt` as its list of lines, whether `versions/` exists, and the
   * version directories under it by id.
   */
  datatype Disk = Disk(
    storeDir: bool,
    headFile: Option<string>,
    activeFile: Option<string>,
    index: Option<seq<string>>,
    versionsDir: bool,
    versions: map<int, Version>)

  /** The in-memory fields `head`, `active`, `isInitialized` together with the disk. */
  datatype Store = Store(head: int, active: int, initialized: bool, disk: Disk)

  const InitMessage: string := "GVT initialized."

  /** Nothing exists inside a directory that does not exist. */
  predicate Nested(d: Disk) {
    && (!d.storeDir ==> d.headFile.None? && d.activeFile.None? && d.index.None? && !d.versionsDir)
    && (!d.versionsDir ==> d.versions == map[])
  }

  /** The store directory of a working directory in which gvt was never run. */
  const EmptyDisk: Disk := Disk(false, None, None, None, false, map[])

  // ---------------------------------------------------------------------
  // Loading (VersionController.init)

  /**
   * The constructor's `init()`: both `HEAD` and `ACTIVE` must exist; `head`
   * is assigned before `ACTIVE` is parsed, so a malformed `ACTIVE` leaves
   * `head` set but the store uninitialized.
   */
  function Load(d: Disk): (s: Store)
    ensures s.disk == d
    ensures s.initialized <==>
      && d.headFile.Some? && d.activeFile.Some?
      && ParseInt(Trim(d.headFile.value)).Some? && ParseInt(Trim(d.activeFile.value)).Some?
    ensures s.initialized ==>
      s.head == ParseInt(Trim(d.headFile.value)).value && s.active == ParseInt(Trim(d.activeFile.value)).value
    ensures !s.initialized ==> s.active == 0
  {
    if d.headFile.Some? && d.activeFile.Some? then
      match ParseInt(Trim(d.headFile.value))
      case None => Store(0, 0, false, d)
      case Some(h) =>
        match ParseInt(Trim(d.activeFile.value))
        case None => Store(h, 0, false, d)
        case Some(a) => Store(h, a, true, d)
    else
      Store(0, 0, false, d)
  }

  // ---------------------------------------------------------------------
  // The reachable-state invariant

  predicate Complete(v: Version) { v.message.Some? && v.files.Some? }

  /** Index entries are base names: they never contain a '/'. */
  predicate PlainIndex(index: Option<seq<string>>) {
    index.Some? ==> forall n :: n in index.value ==> '/' !in n
  }

  /**
   * What holds of every store that gvt itself produced, starting from a
   * working directory without `.gvt`: an uninitialized store is that empty
   * directory; in an initialized one `HEAD` and `ACTIVE` both hold the
   * printed head, versions 0 to head exist and are complete, and the
   * in-memory `active` lies between 0 and head.
   */
  ghost predicate Consistent(s: Store) {
    && Nested(s.disk)
    && PlainIndex(s.disk.index)
    && (!s.initialized ==> s == Store(0, 0, false, EmptyDisk))
    && (s.initialized ==> Persisted(s.head, s.active, s.disk.storeDir, s.disk.versionsDir,
                                    s.disk.headFile, s.disk.activeFile, s.disk.versions))
  }

  /** The part of the invariant that does not involve the index. */
  ghost predicate Persisted(head: int, active: int, storeDir: bool, versionsDir: bool,
                            headFile: Option<string>, activeFile: Option<string>,
                            versions: map<int, Version>) {
    && 0 <= active <= head
    && storeDir && versionsDir
    && headFile == Some(IntToString(head))
    && activeFile == headFile
    && VersionsUpTo(versions, head)
  }

  /** Exactly the ids 0 to head have a version directory, each a complete one. */
  ghost predicate VersionsUpTo(versions: map<int, Version>, head: int) {
    && (forall id :: id in versions ==> 0 <= id <= head && Complete(versions[id]))
    && (forall id :: 0 <= id <= head ==> id in versions)
  }

  /** A directory without `.gvt` loads as an uninitialized store. */
  lemma LoadEmpty()
    ensures Load(EmptyDisk) == Store(0, 0, false, EmptyDisk)
    ensures Consistent(Load(EmptyDisk))
  {
  }

  /** What gvt persisted loads back as the same store, with `active` read from `ACTIVE`, i.e. as head. */
  lemma ReloadPersisted(s: Store)
    requires Consistent(s) && s.initialized && s.head <= MaxInt
    ensures Load(s.disk) == s.(active := s.head)
    ensures Consistent(Load(s.disk))
  {
    TrimIntToString(s.head);
    ParseIntRoundTrip(s.head);
  }

  /** `getActiveVersion`: 0 without `ACTIVE`, else its trimmed parse (None: NumberFormatException). */
  function PersistedActive(d: Disk): (r: Option<int>)
    ensures d.activeFile.None? ==> r == Some(0)
    ensures r.Some? ==> MinInt <= r.value <= MaxInt
  {
    match d.activeFile
    case None => Some(0)
    case Some(text) => ParseInt(Trim(text))
  }

  /** On a store gvt wrote, the persisted active version is head, whatever the in-memory `active` says. */
  lemma PersistedActiveIsHead(s: Store)
    requires Consistent(s) && s.initialized && s.head <= MaxInt
    ensures PersistedActive(s.disk) == Some(s.head)
  {
    TrimIntToString(s.head);
    ParseIntRoundTrip(s.head);
  }

  /** On a store gvt wrote, exactly the ids 0 to head are versions. */
  lemma VersionIds(s: Store, id: int)
    requires Consistent(s) && s.initialized
    ensures id in s.disk.versions <==> 0 <= id <= s.head
  {
  }

  /** Index entries are base names, so a path with a directory part is never reported as tracked. */
  lemma PathNeverTracked(s: Store, path: string)
    requires Consistent(s) && '/' in path
    ensures !IsTracked(s.disk.index, path)
  {
  }

  // ---------------------------------------------------------------------
  // initialize

  /**
   * `initialize()`: `Files.createDirectory(.gvt)` fails when the directory
   * already exists, and then nothing at all is written.
   */
  function InitializeStore(s: Store): (r: Store)
    ensures r == s <==> s.disk.storeDir
    ensures r.disk.storeDir && r.disk.index == s.disk.index
  {
    if s.disk.storeDir then s
    else
      Store(0, 0, true,
        Disk(true, Some("0"), Some("0"), s.disk.index, true,
             s.disk.versions[0 := Version(Some(InitMessage), Some(map[]))]))
  }

  lemma InitializeFresh(s: Store)
    requires Consistent(s) && !s.disk.storeDir
    ensures var r := InitializeStore(s);
      && r.head == 0 && r.active == 0 && r.initialized
      && r.disk.headFile == Some("0") && r.disk.activeFile == Some("0")
      && r.disk.versions == map[0 := Version(Some(InitMessage), Some(map[]))]
      && r.disk.index == None
      && Consistent(r)
  {
    var r := InitializeStore(s);
    assert IntToString(0) == "0";
    assert VersionsUpTo(r.disk.versions, 0);
  }

  lemma InitializeExisting(s: Store)
    requires s.disk.storeDir
    ensures InitializeStore(s) == s
  {
  }

  // ---------------------------------------------------------------------
  // The tracked-file index (addFile, detachFile, checkFile)

  /** `index.txt` as a list, empty when the file is missing. */
  function IndexList(index: Option<seq<string>>): seq<string> {
    index.GetOr([])
  }

  /** `checkFile`: false without an index, else exact membership. */
  predicate IsTracked(index: Option<seq<string>>, name: string)
    ensures IsTracked(index, name) <==> name in IndexList(index)
    ensures index.None? ==> !IsTracked(index, name)
  {
    index.Some? && name in index.value
  }

  /** `addFile`: append the name to the (possibly new) index, with no duplicate check. */
  function TrackName(s: Store, name: string): (r: Store)
    ensures forall n :: IsTracked(r.disk.index, n) <==> IsTracked(s.disk.index, n) || n == name
    ensures |IndexList(r.disk.index)| == |IndexList(s.disk.index)| + 1
    ensures r.(disk := r.disk.(index := s.disk.index)) == s
  {
    var l := IndexList(s.disk.index);
    assert forall n :: n in l + [name] <==> n in l || n == name;
    s.(disk := s.disk.(index := Some(l + [name])))
  }

  /** The position of the first occurrence of x. */
  function FirstIndex(l: seq<string>, x: string): (i: nat)
    requires x in l
    ensures i < |l| && l[i] == x && x !in l[..i]
  {
    if l[0] == x then 0 else assert x in l[1..]; 1 + FirstIndex(l[1..], x)
  }

  /** `List.remove(Object)`: drop the first occurrence, if any. */
  function RemoveFirst(l: seq<string>, x: string): (r: seq<string>)
    ensures |r| == if x in l then |l| - 1 else |l|
    ensures forall y :: y in r ==> y in l
  {
    if |l| == 0 then []
    else if l[0] == x then l[1..]
    else [l[0]] + RemoveFirst(l[1..], x)
  }

  /** `detachFile`: without an index nothing happens. */
  function UntrackName(s: Store, name: string): (r: Store)
    ensures r.disk.index.Some? <==> s.disk.index.Some?
    ensures forall n :: IsTracked(r.disk.index, n) ==> IsTracked(s.disk.index, n)
    ensures r.(disk := r.disk.(index := s.disk.index)) == s
  {
    match s.disk.index
    case None => s
    case Some(l) => s.(disk := s.disk.(index := Some(RemoveFirst(l, name))))
  }

  lemma {:induction false} RemoveFirstAbsent(l: seq<string>, x: string)
    requires x !in l
    ensures RemoveFirst(l, x) == l
  {
    if |l| > 0 {
      RemoveFirstAbsent(l[1..], x);
    }
  }

  /** Exactly one copy of a present name goes. */
  lemma RemoveFirstPresent(l: seq<string>, x: string)
    requires x in l
    ensures multiset(RemoveFirst(l, x)) == multiset(l) - multiset{x}
  {
    RemoveFirstSplit(l, x);
    var i := FirstIndex(l, x);
    assert l == l[..i] + [x] + l[i + 1..];
  }

  /** Exactly the first occurrence goes; what precedes and follows it stays in order. */
  lemma {:induction false} RemoveFirstSplit(l: seq<string>, x: string)
    requires x in l
    ensures var i := FirstIndex(l, x); RemoveFirst(l, x) == l[..i] + l[i + 1..]
  {
    if l[0] != x {
      assert x in l[1..];
      RemoveFirstSplit(l[1..], x);
      var i := FirstIndex(l[1..], x);
      assert FirstIndex(l, x) == i + 1;
      assert l[..i + 1] == [l[0]] + l[1..][..i];
      assert l[i + 2..] == l[1..][i + 1..];
    }
  }

  /** Appending a base name keeps the invariant. */
  lemma TrackPreserves(s: Store, name: string)
    requires Consistent(s) && s.disk.storeDir && '/' !in name
    ensures Consistent(TrackName(s, name))
  {
    var l := IndexList(s.disk.index);
    assert PlainIndex(Some(l + [name])) by {
      assert forall n :: n in l + [name] ==> n in l || n == name;
    }
    var d := s.disk.(index := Some(l + [name]));
    assert TrackName(s, name) == s.(disk := d);
    assert Nested(d);
  }

  /** Removing a name keeps the other entries, so an index of base names stays one. */
  lemma UntrackPreserves(s: Store, name: string)
    requires Consistent(s)
    ensures Consistent(UntrackName(s, name))
  {
  }

  /** Adding the same name twice appends it twice: the list is not a set. */
  lemma TrackTwiceDuplicates(s: Store, name: string)
    ensures var l := IndexList(TrackName(TrackName(s, name), name).disk.index);
      |l| == |IndexList(s.disk.index)| + 2 && l[|l| - 1] == name && l[|l| - 2] == name
  {
  }

  // ---------------------------------------------------------------------
  // createNewVersion

  /** The bytes that version id of the store holds for name, if it holds that file. */
  function StoredFile(versions: map<int, Version>, id: int, name: string): Option<Bytes> {
    if id in versions && versions[id].files.Some? && name in versions[id].files.value
    then Some(versions[id].files.value[name]) else None
  }

  /** The message of version id, if it has one. */
  function StoredMessage(versions: map<int, Version>, id: int): Option<string> {
    if id in versions then versions[id].message else None
  }

  /** The tracked names that exist in the working directory, with their current bytes. */
  function Snapshot(tracked: seq<string>, work: Files): (r: Files)
    ensures forall n :: n in r <==> n in tracked && n in work
    ensures forall n :: n in r ==> r[n] == work[n]
  {
    map n | n in tracked && n in work :: work[n]
  }

  /** Copying one more tracked name: it is added exactly when it exists in the working directory. */
  lemma SnapshotStep(tracked: seq<string>, name: string, work: Files)
    ensures Snapshot(tracked + [name], work)
      == if name in work then Snapshot(tracked, work)[name := work[name]] else Snapshot(tracked, work)
  {
    assert forall n :: n in tracked + [name] <==> n in tracked || n == name;
  }

  /** Files already lying in `versions/<id>/files/`; copies replace them but do not remove them. */
  function PriorFiles(versions: map<int, Version>, id: int): (r: Files)
    ensures forall n :: StoredFile(versions, id, n) == if n in r then Some(r[n]) else None
  {
    if id in versions && versions[id].files.Some? then versions[id].files.value else map[]
  }

  /**
   * `createNewVersion(message)`: head is incremented, the tracked files that
   * exist are copied into the new version, the message is written and
   * `HEAD` and `ACTIVE` both receive the new head. The in-memory `active`
   * is not assigned.
   */
  function CreateVersion(s: Store, message: string, work: Files): (r: Store)
    ensures r.head == s.head + 1 && r.active == s.active && r.initialized == s.initialized
    ensures r.disk.headFile == Some(IntToString(r.head)) && r.disk.activeFile == r.disk.headFile
    ensures r.disk.index == s.disk.index
    ensures r.disk.versions.Keys == s.disk.versions.Keys + {r.head}
    ensures r.disk.versions[r.head].message == Some(message)
    ensures forall id :: id in s.disk.versions && id != r.head ==> r.disk.versions[id] == s.disk.versions[id]
  {
    var id := s.head + 1;
    var files := PriorFiles(s.disk.versions, id) + Snapshot(IndexList(s.disk.index), work);
    Store(id, s.active, s.initialized,
      s.disk.(storeDir := true,
              headFile := Some(IntToString(id)),
              activeFile := Some(IntToString(id)),
              versionsDir := true,
              versions := s.disk.versions[id := Version(Some(message), Some(files))]))
  }

  /**
   * On a consistent store the new id is fresh: the snapshot holds exactly the
   * tracked names present in the working directory, no earlier version
   * changes, the invariant is kept, and the in-memory `active` now lags
   * behind the persisted one.
   */
  lemma CreateVersionFresh(s: Store, message: string, work: Files)
    requires Consistent(s) && s.initialized
    ensures var r := CreateVersion(s, message, work);
      && r.disk.versions[r.head].files == Some(Snapshot(IndexList(s.disk.index), work))
      && (forall n :: n in r.disk.versions[r.head].files.value <==> IsTracked(s.disk.index, n) && n in work)
      && (forall id :: id in s.disk.versions ==> r.disk.versions[id] == s.disk.versions[id])
      && r.active < r.head
      && Consistent(r)
  {
    var r := CreateVersion(s, message, work);
    assert s.head + 1 !in s.disk.versions;
    assert PriorFiles(s.disk.versions, r.head) == map[];
    assert map[] + Snapshot(IndexList(s.disk.index), work) == Snapshot(IndexList(s.disk.index), work);
    assert VersionsUpTo(r.disk.versions, r.head);
  }

  /** After a version is created, a fresh load sees it as head and as active. */
  lemma CreateVersionReload(s: Store, message: string, work: Files)
    requires Consistent(s) && s.initialized && s.head < MaxInt
    ensures var r := CreateVersion(s, message, work);
      Load(r.disk) == r.(active := r.head) && Load(r.disk).active != r.active
  {
    var r := CreateVersion(s, message, work);
    CreateVersionFresh(s, message, work);
    ReloadPersisted(r);
  }

  // ---------------------------------------------------------------------
  // printHistory

  /** The exclusive lower bound of the countdown, in Java `int` arithmetic. */
  function HistoryLast(head: int, limit: int): (r: int)
    ensures limit == -1 ==> r == -1
    ensures limit != -1 ==> MinInt <= r <= MaxInt && (r - (head - limit - 1)) % 0x1_0000_0000 == 0
  {
    if limit == -1 then -1 else Wrap32(head - limit - 1)
  }

  /** The ids hi, hi-1, ..., last+1. */
  function Ids(hi: int, last: int): seq<int>
    decreases hi - last
  {
    if hi <= last then [] else Ids(hi, last + 1) + [last + 1]
  }

  /** Ids lists hi - last ids, strictly descending from hi. */
  lemma {:induction false} IdsShape(hi: int, last: int)
    ensures |Ids(hi, last)| == if hi <= last then 0 else hi - last
    ensures forall k :: 0 <= k < |Ids(hi, last)| ==> Ids(hi, last)[k] == hi - k
    decreases hi - last
  {
    if hi > last {
      IdsShape(hi, last + 1);
    }
  }

  /** One history line: the id and the first line of its message. */
  function Line(versions: map<int, Version>, id: int): (r: string)
    ensures StartsWith(r, IntToString(id) + ": ") && r[|r| - 1] == '\n'
    ensures multiset(r)['\n'] == 1
    ensures var n := |IntToString(id)| + 2;
      && n < |r|
      && r[n..|r| - 1] == match StoredMessage(versions, id) case Some(m) => FirstLine(m) case None => "(no message)"
  {
    HistoryEntry(id, HistoryMessage(versions, id))
  }

  /** What a history line shows for version id: the first line of its message, or "(no message)". */
  function HistoryMessage(versions: map<int, Version>, id: int): (r: string)
    ensures '\n' !in r
  {
    match StoredMessage(versions, id)
    case Some(m) => FirstLine(m)
    case None => assert '\n' !in "(no message)"; "(no message)"
  }

  /** `id + ": " + text`, ended by the one newline of the line. */
  function HistoryEntry(id: int, text: string): (r: string)
    requires '\n' !in text
    ensures StartsWith(r, IntToString(id) + ": ") && r[|r| - 1] == '\n'
    ensures multiset(r)['\n'] == 1
    ensures |IntToString(id)| + 2 < |r| && r[|IntToString(id)| + 2..|r| - 1] == text
  {
    var prefix := IntToString(id) + ": ";
    assert '\n' !in prefix;
    OneNewline(prefix, text);
    prefix + text + "\n"
  }

  /** Two newline-free texts followed by a newline hold that one newline, with each text in its place. */
  lemma OneNewline(a: string, b: string)
    requires '\n' !in a && '\n' !in b
    ensures var r := a + b + "\n";
      && multiset(r)['\n'] == 1 && r[..|a|] == a && r[|a|..|r| - 1] == b && r[|r| - 1] == '\n'
  {
    var r := a + b + "\n";
    assert r[..|a|] == a && r[|a|..|r| - 1] == b;
    assert multiset(r) == multiset(a) + multiset(b) + multiset("\n");
  }


  /** One line per id, in the order of ids. */
  function Render(versions: map<int, Version>, ids: seq<int>): (r: string)
    ensures multiset(r)['\n'] == |ids|
  {
    if |ids| == 0 then ""
    else
      var earlier, line := Render(versions, ids[..|ids| - 1]), Line(versions, ids[|ids| - 1]);
      assert multiset(earlier + line) == multiset(earlier) + multiset(line);
      earlier + line
  }

  lemma RenderSnoc(versions: map<int, Version>, ids: seq<int>, id: int)
    ensures Render(versions, ids + [id]) == Render(versions, ids) + Line(versions, id)
  {
    assert (ids + [id])[..|ids|] == ids;
  }

  /** `printHistory(limit)`: "" without `versions/`, else one line per id counted down. */
  function HistoryText(d: Disk, head: int, limit: int): (r: string)
    ensures !d.versionsDir ==> r == ""
    ensures d.versionsDir ==> multiset(r)['\n'] == |Ids(head, HistoryLast(head, limit))|
  {
    if !d.versionsDir then "" else Render(d.versions, Ids(head, HistoryLast(head, limit)))
  }

  /** With no limit the history lists every version, from head down to 0. */
  lemma HistoryAll(s: Store)
    requires Consistent(s) && s.initialized
    ensures var ids := Ids(s.head, HistoryLast(s.head, -1));
      && |ids| == s.head + 1
      && (forall k :: 0 <= k < |ids| ==> ids[k] == s.head - k && ids[k] in s.disk.versions)
  {
    IdsShape(s.head, -1);
  }

  /**
   * With limit L >= 0 there are exactly L + 1 lines, ids head down to
   * head - L, with no clamping at 0.
   */
  lemma HistoryLimited(head: int, limit: int)
    requires 0 <= head <= MaxInt && 0 <= limit <= MaxInt
    ensures var ids := Ids(head, HistoryLast(head, limit));
      && |ids| == limit + 1
      && (forall k :: 0 <= k < |ids| ==> ids[k] == head - k)
      && ids[limit] == head - limit
  {
    assert HistoryLast(head, limit) == head - limit - 1;
    IdsShape(head, head - limit - 1);
  }

  /** An id below 0 is not a version, so its line reads "(no message)". */
  lemma NegativeIdLine(s: Store, id: int)
    requires Consistent(s) && s.initialized && id < 0
    ensures Line(s.disk.versions, id) == IntToString(id) + ": (no message)\n"
  {
    assert id !in s.disk.versions;
    assert IntToString(id) + ": " + "(no message)" + "\n" == IntToString(id) + ": (no message)\n";
  }

  // ---------------------------------------------------------------------
  // printVersionDetails

  /** "Version: <id>" and a newline, then the full message or "(no message)". */
  function Details(versions: map<int, Version>, id: int): (r: string)
    ensures var header := "Version: " + IntToString(id) + "\n";
      && StartsWith(r, header)
      && r[|header|..] == StoredMessage(versions, id).GetOr("(no message)")
  {
    var message :=
      if id in versions && versions[id].message.Some? then versions[id].message.value
      else "(no message)";
    var header := "Version: " + IntToString(id) + "\n";
    assert (header + message)[..|header|] == header;
    header + message
  }

  /** The details of a version give back its message verbatim. */
  /**
   * The history line of a created version: its id, then the first line of
   * its message.
   */
  lemma HistoryLineOfCreated(s: Store, message: string, work: Files)
    ensures var r := CreateVersion(s, message, work);
      Line(r.disk.versions, r.head) == IntToString(r.head) + ": " + FirstLine(message) + "\n"
  {
  }

  lemma DetailsOfCreated(s: Store, message: string, work: Files)
    ensures var r := CreateVersion(s, message, work);
      var header := "Version: " + IntToString(r.head) + "\n";
      var text := Details(r.disk.versions, r.head);
      StartsWith(text, header) && text[|header|..] == message
  {
  }

  // ---------------------------------------------------------------------
  // checkoutVersion

  /** `checkoutVersion(id)`: every snapshot file overwrites its working copy. */
  function Restore(versions: map<int, Version>, id: int, work: Files): (r: Files)
    ensures r.Keys == work.Keys + PriorFiles(versions, id).Keys
    ensures forall n :: StoredFile(versions, id, n).Some? ==> n in r && r[n] == StoredFile(versions, id, n).value
    ensures forall n :: n in work && StoredFile(versions, id, n).None? ==> r[n] == work[n]
  {
    if id in versions && versions[id].files.Some? then work + versions[id].files.value else work
  }

  /** Checkout of a freshly created version brings back the bytes it snapshotted. */
  lemma RestoreCreated(s: Store, message: string, work: Files, later: Files)
    requires Consistent(s) && s.initialized
    ensures var r := CreateVersion(s, message, work);
      var w := Restore(r.disk.versions, r.head, later);
      && w.Keys == later.Keys + Snapshot(IndexList(s.disk.index), work).Keys
      && (forall n :: IsTracked(s.disk.index, n) && n in work ==> w[n] == work[n])
      && (forall n :: n in later && !(IsTracked(s.disk.index, n) && n in work) ==> w[n] == later[n])
  {
    CreateVersionFresh(s, message, work);
  }
}
