/**
 * A first session with gvt, run after run: `init`, `add a.txt`, `commit
 * a.txt` after editing it, `detach a.txt`, `checkout 1`, and `version 99`.
 * The file's contents before and after the edit are arbitrary byte
 * strings, and the working directory may hold any other files.
 */
module Walkthrough {
  import opened Wrappers
  import opened Text
  import opened Snapshots
  import opened Commands
  import opened GvtMain

  /** The file argument of the session: a plain name without a leading '-' and without a message. */
  lemma PlainArgument()
    ensures !NoFileArgument(["a.txt"]) && ExtractMessage(["a.txt"]) == None
    ensures BaseName("a.txt") == "a.txt" && JavaPath("a.txt") == "a.txt"
  {
    assert "a.txt"[..1] == "a";
    assert '/' !in "a.txt";
    BaseNameOfPlainName("a.txt");
  }

  /** `init` in a directory without `.gvt`: head and active are 0, and version 0 has the fixed message and no files. */
  lemma InitStep(work: Files)
    ensures var s := MainEffect(Load(EmptyDisk), ["init"], work).store;
      && Consistent(s) && s.initialized && s.head == 0 && s.active == 0
      && s.disk.index == None
      && s.disk.versions == map[0 := Version(Some(InitMessage), Some(map[]))]
  {
    LoadEmpty();
    LowerCaseNames();
    assert RouteOf(["init"], false) == Run(INIT, []);
    InitializeFresh(Load(EmptyDisk));
  }

  /** An initialized store runs `add a.txt` and `commit a.txt` as ADD and COMMIT of "a.txt". */
  lemma RunsOfPlainFile(s: Store, w: Files)
    requires s.initialized
    ensures MainEffect(s, ["add", "a.txt"], w) == AddEffect(s, ["a.txt"], w)
    ensures MainEffect(s, ["commit", "a.txt"], w) == CommitEffect(s, ["a.txt"], w)
  {
    LowerCaseNames();
    assert RouteOf(["add", "a.txt"], true) == Run(ADD, ["a.txt"]);
    assert RouteOf(["commit", "a.txt"], true) == Run(COMMIT, ["a.txt"]);
  }

  /** ADD of a plain name into an empty index: the index is that name and the version holds exactly that file. */
  lemma AddFirstFile(s: Store, name: string, w: Files)
    requires Consistent(s) && s.initialized && s.disk.index == None
    requires |name| > 0 && name[0] != '-' && '/' !in name && name in w
    ensures var r := AddEffect(s, [name], w).store;
      && Consistent(r) && r.initialized && r.head == s.head + 1
      && r.disk.index == Some([name])
      && r.head in r.disk.versions && r.disk.versions[r.head].files == Some(map[name := w[name]])
      && r.disk.versions[r.head].message == Some("File added successfully. File: " + name)
  {
    assert FileExists(w, name);
    assert !NoFileArgument([name]) by { assert name[..1] != "-"; }
    BaseNameOfPlainName(name);
    var t := TrackName(s, name);
    TrackPreserves(s, name);
    assert IndexList(t.disk.index) == [name];
    var m := "File added successfully. File: " + name;
    assert FullMessage([name], m) == m;
    var r := CreateVersion(t, m, w);
    assert AddEffect(s, [name], w).store == r;
    CreateVersionFresh(t, m, w);
    assert t.disk == s.disk.(index := Some([name]));
    assert Snapshot([name], w) == map[name := w[name]];
    assert r.disk.versions[t.head + 1] == Version(Some(m), Some(map[name := w[name]]));
  }

  /** `add a.txt` right after `init`: version 1 holds exactly a.txt with the bytes it had. */
  lemma AddStepOne(s: Store, w: Files)
    requires Consistent(s) && s.initialized && s.head == 0 && s.disk.index == None
    requires "a.txt" in w
    ensures var r := MainEffect(s, ["add", "a.txt"], w).store;
      && Consistent(r) && r.initialized && r.head == 1
      && r.disk.index == Some(["a.txt"])
      && 1 in r.disk.versions && r.disk.versions[1].files == Some(map["a.txt" := w["a.txt"]])
      && r.disk.versions[1].message == Some("File added successfully. File: a.txt")
  {
    var r := AddEffect(s, ["a.txt"], w).store;
    assert '/' !in "a.txt";
    AddFirstFile(s, "a.txt", w);
    assert r.head == 1 && 1 in r.disk.versions;
    var v := r.disk.versions[r.head];
    assert v.files == Some(map["a.txt" := w["a.txt"]]);
    assert v.message == Some("File added successfully. File: a.txt") by {
      assert "File added successfully. File: " + "a.txt" == "File added successfully. File: a.txt";
    }
    RunsOfPlainFile(s, w);
    assert MainEffect(s, ["add", "a.txt"], w).store == r;
  }

  /** COMMIT of the one tracked plain name: its current bytes are snapshotted, nothing else changes. */
  lemma CommitTrackedFile(s: Store, name: string, w: Files)
    requires Consistent(s) && s.initialized && s.disk.index == Some([name])
    requires |name| > 0 && name[0] != '-' && '/' !in name && name in w
    ensures var r := CommitEffect(s, [name], w).store;
      && Consistent(r) && r.initialized && r.head == s.head + 1
      && r.disk.index == Some([name])
      && r.head in r.disk.versions && r.disk.versions[r.head].files == Some(map[name := w[name]])
      && (forall id :: id in s.disk.versions ==> r.disk.versions[id] == s.disk.versions[id])
  {
    assert FileExists(w, name);
    assert !NoFileArgument([name]) by { assert name[..1] != "-"; }
    assert IsTracked(s.disk.index, name);
    var m := FullMessage([name], "File committed successfully. File: " + name);
    assert CommitEffect(s, [name], w).store == CreateVersion(s, m, w);
    CreateVersionFresh(s, m, w);
    assert Snapshot([name], w) == map[name := w[name]];
  }

  /** `commit a.txt` after an edit: the new version has the new bytes, the old versions are kept. */
  lemma CommitStep(s: Store, w: Files)
    requires Consistent(s) && s.initialized && s.disk.index == Some(["a.txt"])
    requires "a.txt" in w
    ensures var r := MainEffect(s, ["commit", "a.txt"], w).store;
      && Consistent(r) && r.initialized && r.head == s.head + 1
      && r.disk.index == Some(["a.txt"])
      && r.head in r.disk.versions && r.disk.versions[r.head].files == Some(map["a.txt" := w["a.txt"]])
      && (forall id :: id in s.disk.versions ==> r.disk.versions[id] == s.disk.versions[id])
  {
    RunsOfPlainFile(s, w);
    assert '/' !in "a.txt";
    CommitTrackedFile(s, "a.txt", w);
  }

  /** `detach a.txt`: the new version holds no files, and the working directory is left alone. */
  lemma DetachStep(s: Store, w: Files)
    requires Consistent(s) && s.initialized && s.disk.index == Some(["a.txt"])
    ensures var e := MainEffect(s, ["detach", "a.txt"], w);
      && Consistent(e.store) && e.store.initialized && e.store.head == s.head + 1
      && e.store.disk.index == Some([])
      && e.store.disk.versions[e.store.head].files == Some(map[])
      && (forall id :: id in s.disk.versions ==> e.store.disk.versions[id] == s.disk.versions[id])
      && e.work == w
  {
    LowerCaseNames();
    PlainArgument();
    assert RouteOf(["detach", "a.txt"], true) == Run(DETACH, ["a.txt"]);
    assert IsTracked(s.disk.index, "a.txt");
    var u := UntrackName(s, "a.txt");
    assert RemoveFirst(["a.txt"], "a.txt") == [] by {
      RemoveFirstSplit(["a.txt"], "a.txt");
    }
    UntrackPreserves(s, "a.txt");
    assert MainEffect(s, ["detach", "a.txt"], w).store == CreateVersion(u, DetachMessage(["a.txt"]), w);
    CreateVersionFresh(u, DetachMessage(["a.txt"]), w);
  }

  /** `checkout 1` writes back the bytes version 1 holds, whatever a.txt holds now. */
  lemma CheckoutStep(s: Store, hello: Bytes, now: Files)
    requires Consistent(s) && s.initialized && 1 <= s.head <= MaxInt
    requires s.disk.versions[1].files == Some(map["a.txt" := hello])
    ensures var e := MainEffect(s, ["checkout", "1"], now);
      && e.out == Exit(0, "Checkout successful for version: 1")
      && e.work == now["a.txt" := hello]
  {
    LowerCaseNames();
    assert RouteOf(["checkout", "1"], true) == Run(CHECKOUT, ["1"]);
    assert IntToString(1) == "1";
    CheckoutOutcome(s, 1, now);
  }

  /** `version 99` on a store whose head is below 99 is refused with exit code 60. */
  lemma MissingVersionStep(s: Store, now: Files)
    requires Consistent(s) && s.initialized && s.head < 99
    ensures MainEffect(s, ["version", "99"], now) == Effect(Exit(60, "Invalid version number: 99"), s, now)
  {
    LowerCaseNames();
    assert RouteOf(["version", "99"], true) == Run(VERSION, ["99"]);
    assert IntToString(99) == "99";
    InvalidVersionRefused(s, 99, now);
  }

  /**
   * The whole session, with hello and world the two contents of a.txt.
   * `Gvt.main` builds a new version controller for every run, so each run
   * starts from what the previous one left on disk.
   */
  lemma Session(hello: Bytes, world: Bytes, rest: Files, now: Files)
    ensures
      var w1 := rest["a.txt" := hello];
      var w2 := rest["a.txt" := world];
      var s1 := MainEffect(Load(EmptyDisk), ["init"], w1).store;
      var s2 := MainEffect(Load(s1.disk), ["add", "a.txt"], w1).store;
      var s3 := MainEffect(Load(s2.disk), ["commit", "a.txt"], w2).store;
      var e4 := MainEffect(Load(s3.disk), ["detach", "a.txt"], w2);
      var s5 := Load(e4.store.disk);
      && s1.head == 0 && s2.head == 1 && s3.head == 2 && e4.store.head == 3
      && 1 in s3.disk.versions && s3.disk.versions[1].files == Some(map["a.txt" := hello])
      && 2 in s3.disk.versions && s3.disk.versions[2].files == Some(map["a.txt" := world])
      && 3 in e4.store.disk.versions && e4.store.disk.versions[3].files == Some(map[])
      && e4.work == w2
      && MainEffect(s5, ["checkout", "1"], now).work == now["a.txt" := hello]
      && MainEffect(s5, ["version", "99"], now).out == Exit(60, "Invalid version number: 99")
  {
    var w1 := rest["a.txt" := hello];
    var w2 := rest["a.txt" := world];
    var s1 := MainEffect(Load(EmptyDisk), ["init"], w1).store;
    InitStep(w1);
    ReloadPersisted(s1);
    var l1 := Load(s1.disk);
    var s2 := MainEffect(l1, ["add", "a.txt"], w1).store;
    AddStepOne(l1, w1);
    assert s2.disk.versions[1].files == Some(map["a.txt" := hello]);
    ReloadPersisted(s2);
    var l2 := Load(s2.disk);
    assert l2.disk == s2.disk;
    var s3 := MainEffect(l2, ["commit", "a.txt"], w2).store;
    CommitStep(l2, w2);
    assert s3.disk.versions[1] == s2.disk.versions[1];
    ReloadPersisted(s3);
    var l3 := Load(s3.disk);
    assert l3.disk == s3.disk;
    var e4 := MainEffect(l3, ["detach", "a.txt"], w2);
    DetachStep(l3, w2);
    assert e4.store.disk.versions[1] == s3.disk.versions[1];
    ReloadPersisted(e4.store);
    var s5 := Load(e4.store.disk);
    assert s5.disk == e4.store.disk && s5.head == 3;
    CheckoutStep(s5, hello, now);
    MissingVersionStep(s5, now);
  }
}
