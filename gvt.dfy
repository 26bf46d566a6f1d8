/**
 * The queries of class `Gvt` over its `VersionController`: whether a
 * version directory exists, the persisted active version, and whether a
 * file name is tracked.
 */
module Gvt {
  import opened Wrappers
  import opened Text
  import opened Snapshots
  import opened VersionControl

  /** `versionExists(id)`: `versions/<id>` exists and is a directory. */
  method VersionExists(vc: VersionController, id: int) returns (found: bool)
    ensures found <==> id in vc.versions
    ensures Consistent(vc.State()) && vc.isInitialized ==> (found <==> 0 <= id <= vc.head)
  {
    found := id in vc.versions;
  }

  /**
   * `getActiveVersion()`: reads `ACTIVE` from disk, not the in-memory field;
   * None stands for the NumberFormatException, which this method does not catch.
   */
  method GetActiveVersion(vc: VersionController) returns (active: Option<int>)
    ensures vc.activeFile.None? ==> active == Some(0)
    ensures vc.activeFile.Some? ==> active == ParseInt(Trim(vc.activeFile.value))
    ensures Consistent(vc.State()) && vc.isInitialized && vc.head <= MaxInt ==> active == Some(vc.head)
  {
    if vc.activeFile.None? {
      return Some(0);
    }
    active := ParseInt(Trim(vc.activeFile.value));
    if Consistent(vc.State()) && vc.isInitialized && vc.head <= MaxInt {
      PersistedActiveIsHead(vc.State());
    }
  }

  /** `isFileAlreadyAdded(name)`: the controller's `checkFile`. */
  method IsFileAlreadyAdded(vc: VersionController, name: string) returns (added: bool)
    ensures added <==> IsTracked(vc.index, name)
    ensures Consistent(vc.State()) && '/' in name ==> !added
  {
    added := vc.CheckFile(name);
    if Consistent(vc.State()) && '/' in name {
      PathNeverTracked(vc.State(), name);
    }
  }
}
