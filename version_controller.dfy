/**
 * `VersionController`: the object that owns the counters and the `.gvt`
 * directory. Its fields are the Java fields `head`, `active` and
 * `isInitialized` plus the persisted files, which the methods update in
 * place; each mutating method is proved to perform the matching transition
 * of module Snapshots. The working directory is passed in explicitly.
 */
module VersionControl {
  import opened Wrappers
  import opened Text
  import opened Snapshots

  /**
   * The copying loop of `createNewVersion`: each tracked name that exists
   * in the working directory is copied into the version's files, replacing
   * a file of the same name that is already there.
   */
  method CopyTracked(tracked: seq<string>, work: Files, target: Files) returns (files: Files)
    ensures files == target + Snapshot(tracked, work)
    ensures forall n :: n in files <==> n in target || (n in tracked && n in work)
  {
    files := target;
    var i := 0;
    while i < |tracked|
      invariant 0 <= i <= |tracked|
      invariant files == target + Snapshot(tracked[..i], work)
    {
      var name := tracked[i];
      assert tracked[..i + 1] == tracked[..i] + [name];
      SnapshotStep(tracked[..i], name, work);
      if name in work {
        UnionUpdate(target, Snapshot(tracked[..i], work), name, work[name]);
        files := files[name := work[name]];
      }
      i := i + 1;
    }
    assert tracked[..|tracked|] == tracked;
  }

  /** Updating the right operand of a map union updates the union. */
  lemma UnionUpdate(a: Files, b: Files, k: string, v: Bytes)
    ensures a + b[k := v] == (a + b)[k := v]
  {
  }

  /** The loop of `printHistory`: appends one line per id from head down to last + 1. */
  method CountDown(versions: map<int, Version>, head: int, last: int) returns (text: string)
    ensures text == Render(versions, Ids(head, last))
  {
    text := "";
    var dir := head;
    while dir > last
      invariant head <= last ==> dir == head
      invariant head > last ==> last <= dir <= head
      invariant text == Render(versions, Ids(head, dir))
      decreases dir - last
    {
      assert Ids(head, dir - 1) == Ids(head, dir) + [dir];
      RenderSnoc(versions, Ids(head, dir), dir);
      text := text + Line(versions, dir);
      dir := dir - 1;
    }
  }

  class VersionController {
    // in memory
    var head: int
    var active: int
    var isInitialized: bool
    // the .gvt directory
    var storeDir: bool
    var headFile: Option<string>
    var activeFile: Option<string>
    var index: Option<seq<string>>
    var versionsDir: bool
    var versions: map<int, Version>

    function DiskState(): Disk
      reads this
    {
      Disk(storeDir, headFile, activeFile, index, versionsDir, versions)
    }

    function State(): Store
      reads this
    {
      Store(head, active, isInitialized, DiskState())
    }

    /** Opens the store found on disk; the fields start at Java's defaults before `init()`. */
    constructor (d: Disk)
      ensures State() == Load(d)
    {
      storeDir, headFile, activeFile := d.storeDir, d.headFile, d.activeFile;
      index, versionsDir, versions := d.index, d.versionsDir, d.versions;
      head, active, isInitialized := 0, 0, false;
      new;
      assert DiskState() == d;
      Init();
    }

    /** `init()`: reads `HEAD` and `ACTIVE` when both exist; a parse failure is caught and reported. */
    method Init()
      requires head == 0 && active == 0 && !isInitialized
      modifies this`head, this`active, this`isInitialized
      ensures State() == Load(DiskState())
    {
      if headFile.Some? && activeFile.Some? {
        var h := ParseInt(Trim(headFile.value));
        if h.Some? {
          head := h.value;
          var a := ParseInt(Trim(activeFile.value));
          if a.Some? {
            active := a.value;
            isInitialized := true;
          }
        }
      }
    }

    /** `initialize()`; ok is false when `.gvt` already exists and the first `createDirectory` throws. */
    method Initialize() returns (ok: bool)
      modifies this
      ensures ok == !old(storeDir)
      ensures State() == InitializeStore(old(State()))
    {
      if storeDir {
        return false;
      }
      storeDir := true;
      versionsDir := true;
      versions := versions[0 := Version(Some(InitMessage), Some(map[]))];
      headFile := Some("0");
      activeFile := Some("0");
      head, active, isInitialized := 0, 0, true;
      ok := true;
    }

    /** `checkFile(name)`. */
    method CheckFile(name: string) returns (tracked: bool)
      ensures tracked <==> index.Some? && name in index.value
      ensures index.None? ==> !tracked
    {
      if index.None? {
        return false;
      }
      tracked := name in index.value;
    }

    /** `addFile(path)`: appends the base name of the path. */
    method AddFile(path: string)
      modifies this`index
      ensures index == Some(IndexList(old(index)) + [BaseName(path)])
      ensures State() == TrackName(old(State()), BaseName(path))
    {
      index := Some(IndexList(index) + [BaseName(path)]);
    }

    /** `detachFile(name)`: removes the first occurrence; nothing happens without an index. */
    method DetachFile(name: string)
      modifies this`index
      ensures old(index).None? ==> index.None?
      ensures old(index).Some? ==> index == Some(RemoveFirst(old(index).value, name))
      ensures State() == UntrackName(old(State()), name)
    {
      if index.None? {
        return;
      }
      index := Some(RemoveFirst(index.value, name));
    }

    /** `commitFile(path)`: its body is empty in the source. */
    method CommitFile(path: string) {
    }

    /**
     * `createNewVersion(message)`: bumps head, copies every tracked file that
     * exists in the working directory, writes the message and both `HEAD`
     * and `ACTIVE`.
     */
    method CreateNewVersion(message: string, work: Files)
      modifies this`head, this`storeDir, this`headFile, this`activeFile, this`versionsDir, this`versions
      ensures head == old(head) + 1 && active == old(active) && index == old(index)
      ensures State() == CreateVersion(old(State()), message, work)
    {
      ghost var expected := CreateVersion(State(), message, work);
      var id := head + 1;
      var files := PriorFiles(versions, id);
      if index.Some? {
        files := CopyTracked(index.value, work, files);
      } else {
        assert files + Snapshot([], work) == files;
      }
      assert expected.disk.versions == versions[id := Version(Some(message), Some(files))];
      head := id;
      storeDir := true;
      versionsDir := true;
      versions := versions[head := Version(Some(message), Some(files))];
      headFile := Some(IntToString(head));
      activeFile := Some(IntToString(head));
    }

    /** `printHistory(limit)`: counts down from head, one line per id, while the id exceeds the bound. */
    method PrintHistory(limit: int) returns (text: string)
      ensures text == HistoryText(DiskState(), head, limit)
      ensures !versionsDir ==> text == ""
    {
      var last := if limit == -1 then -1 else Wrap32(head - limit - 1);
      if !versionsDir {
        return "";
      }
      text := CountDown(versions, head, last);
    }

    /** `printVersionDetails(id)`. */
    method PrintVersionDetails(id: int) returns (text: string)
      ensures text == Details(versions, id)
      ensures StartsWith(text, "Version: " + IntToString(id) + "\n")
    {
      var message := "(no message)";
      if id in versions && versions[id].message.Some? {
        message := versions[id].message.value;
      }
      text := "Version: " + IntToString(id) + "\n" + message;
      assert text[..|"Version: " + IntToString(id) + "\n"|] == "Version: " + IntToString(id) + "\n";
    }

    /**
     * `checkoutVersion(id)`: copies each file of `versions/<id>/files/` over
     * the working copy of the same name, in the order the directory lists
     * them; without that directory nothing happens.
     */
    method CheckoutVersion(id: int, work: Files) returns (result: Files)
      ensures result == Restore(versions, id, work)
      ensures result.Keys >= work.Keys
    {
      result := work;
      if id !in versions || versions[id].files.None? {
        return;
      }
      var files := versions[id].files.value;
      var pending := files.Keys;
      while pending != {}
        invariant pending <= files.Keys
        invariant result.Keys == work.Keys + (files.Keys - pending)
        invariant forall n :: n in result ==> result[n] == if n in files && n !in pending then files[n] else work[n]
        decreases pending
      {
        var n :| n in pending;
        result := result[n := files[n]];
        pending := pending - {n};
      }
      assert result == work + files;
    }
  }
}
