/**
 * The two tests `update_mods` combines to decide whether an installed mod is
 * fetched again: the changelog timestamp against the folder's ctime
 * (`mod_needs_update`) and the presence of addon files (`mod_check`).
 */
module Checks {
  import opened Base
  import opened FileSystem

  /**
   * `mod_needs_update`: true only when the changelog page yielded a
   * timestamp and it is not older than the folder's ctime; no match and a
   * failed request both give false.
   */
  function NeedsUpdate(remote: Option<int>, ctime: int): (r: bool)
    ensures r <==> exists t :: remote == Some(t) && t >= ctime
  {
    match remote
    case Some(t) => t >= ctime
    case None => false
  }

  /** The folder `mod_check` inspects: `Addons` when that is a folder, otherwise `addons`. */
  function AddonsProbe(d: Dir): (r: string)
    ensures r == "Addons" || r == "addons"
    ensures r == "addons" <==> !IsFolder(d, "Addons")
  {
    if IsFolder(d, "Addons") then "Addons" else "addons"
  }

  /** `mod_check`: true (fetch again) unless the probed folder exists and lists at least one entry. */
  function NeedsReinstall(d: Dir): (r: bool)
    ensures !r <==> (IsFolder(d, "Addons") && |d.children["Addons"].entries| > 0)
                    || (!IsFolder(d, "Addons") && IsFolder(d, "addons") && |d.children["addons"].entries| > 0)
  {
    var p := AddonsProbe(d);
    !(IsFolder(d, p) && |d.children[p].entries| > 0)
  }

  /** The test at the head of `update_mods`' loop body: `mod_needs_update(...) or mod_check(...)`. */
  function Stale(remote: Option<int>, d: Dir): (r: bool)
    ensures r <==> (remote.Some? && remote.value >= d.ctime)
                   || !((IsFolder(d, "Addons") && |d.children["Addons"].entries| > 0)
                        || (!IsFolder(d, "Addons") && IsFolder(d, "addons") && |d.children["addons"].entries| > 0))
  {
    NeedsUpdate(remote, d.ctime) || NeedsReinstall(d)
  }

  /** `retry_failed_mods`' success test: `WORKSHOP_DIR/id` is a folder with at least one entry. */
  predicate Ready(s: State, id: string) {
    id in s.workshop && |s.workshop[id].children| > 0
  }
}
