/**
 * The script's procedures as they run: a `Server` holds the directories
 * and files they read and change, and each method performs the source's
 * loops step by step. Every method is proved to leave the server in the
 * state that the matching function of `Orchestrator`, `Retry`, `Links` or
 * `Keys` describes, so the properties proved there hold of the methods.
 */
module Engine {
  import opened Base
  import opened FileSystem
  import opened Checks
  import Platform
  import Registry
  import Ledger
  import Orchestrator
  import Retry
  import Links
  import Keys

  class Server {
    /** `WORKSHOP_DIR`, one folder per workshop id. */
    var workshop: map<string, Dir>
    /** `MODS_DIR`, one entry per `@name`. */
    var mods: map<string, ModEntry>
    /** `KEYS_DIR`, one entry per key file name. */
    var keys: map<string, KeyEntry>
    /** The text of `failed_mods.txt`, None when it does not exist. */
    var ledger: Option<string>
    /** Every effect so far, in order. */
    var journal: seq<Op>
    /** The global `lowercase` flag. */
    var lowercase: bool
    /** The globals `A3Modlist` and `A3Modnames`, filled by `mods()`. */
    const reg: Registry.Registry

    function Snapshot(): State
      reads this
    {
      State(workshop, mods, keys, ledger, journal, lowercase)
    }

    constructor (reg: Registry.Registry, s: State)
      ensures this.reg == reg && Snapshot() == s
    {
      this.reg := reg;
      workshop := s.workshop;
      mods := s.mods;
      keys := s.keys;
      ledger := s.ledger;
      journal := s.journal;
      lowercase := s.lowercase;
    }

    /** `call_steamcmd` for one workshop download of `id`. */
    method RunTool(id: string, env: Env)
      modifies this
      ensures Snapshot() == Orchestrator.FetchOnce(old(Snapshot()), id, env)
    {
      var delivered := env.fetch(|journal|);
      if delivered.Some? {
        workshop := workshop[id := delivered.value];
      }
      journal := journal + [Fetch(id)];
    }

    /** One iteration of `update_mods`' loop over `A3Modlist`. */
    method SyncMod(e: Registry.Entry, env: Env)
      modifies this
      ensures Snapshot() == Orchestrator.SyncMod(old(Snapshot()), e, env)
    {
      var mustUpdate := true;
      if e.id in workshop {
        if Stale(env.changelog(e.id), workshop[e.id]) {
          workshop := workshop - {e.id};
          journal := journal + [RemoveInstall(e.id)];
          lowercase := true;
        } else {
          mustUpdate := false;
        }
      }
      if !mustUpdate && e.id in workshop {
        return;
      }
      ghost var prepared := Snapshot();
      assert prepared == Orchestrator.Prepared(old(Snapshot()), e);
      var tries := 0;
      while e.id !in workshop && tries < env.maxTries
        invariant Orchestrator.FetchUntil(Snapshot(), e.id, tries, env) == Orchestrator.FetchUntil(prepared, e.id, 0, env)
        decreases env.maxTries - tries
      {
        tries := tries + 1;
        RunTool(e.id, env);
      }
      if tries >= env.maxTries {
        ledger := Some(ledger.GetOr([]) + e.id + "\n");
        journal := journal + [AppendLedger(e.id)];
      }
    }

    /** `update_mods()`: the ledger is deleted, then every item of `A3Modlist` is brought up to date. */
    method UpdateMods(env: Env)
      modifies this
      ensures Snapshot() == Orchestrator.UpdateMods(old(Snapshot()), reg.modlist, env)
    {
      if ledger.Some? {
        ledger := None;
        journal := journal + [DeleteLedger];
      }
      ghost var cleared := Snapshot();
      var es := reg.modlist;
      for i := 0 to |es|
        invariant Snapshot() == Orchestrator.SyncAll(cleared, es[..i], env)
      {
        assert es[..i + 1][..i] == es[..i];
        SyncMod(es[i], env);
      }
      assert es[..|es|] == es;
    }

    /** `ForeUpdate()`: one download per item of `A3Modlist`. */
    method ForceUpdate(env: Env)
      modifies this
      ensures Snapshot() == Orchestrator.ForceAll(old(Snapshot()), reg.modlist, env)
    {
      ghost var start := Snapshot();
      var es := reg.modlist;
      for i := 0 to |es|
        invariant Snapshot() == Orchestrator.ForceAll(start, es[..i], env)
      {
        assert es[..i + 1][..i] == es[..i];
        RunTool(es[i].id, env);
      }
      assert es[..|es|] == es;
    }

    /** The `while True` loop of `retry_failed_mods` for one id, under a tool that does not fail for ever. */
    method RetryOne(id: string, env: Env)
      requires Retry.Fair(env)
      modifies this
      ensures Snapshot() == Retry.RetryOne(old(Snapshot()), id, env)
    {
      ghost var start := Snapshot();
      var tries := 0;
      while true
        invariant 0 <= tries <= Retry.RetryCount(start, id, env)
        invariant Snapshot() == Orchestrator.AfterFetches(start, id, tries, env)
        decreases Retry.RetryCount(start, id, env) - tries
      {
        if Ready(Snapshot(), id) {
          Retry.RetryStops(start, id, tries, env);
          break;
        }
        Retry.RetryGoesOn(start, id, tries, env);
        tries := tries + 1;
        RunTool(id, env);
      }
    }

    /** The loop of `retry_failed_mods()` over the ids read from the ledger. */
    method RetryAll(failedIds: seq<string>, env: Env)
      requires Retry.Fair(env)
      modifies this
      ensures Snapshot() == Retry.RetryAll(old(Snapshot()), failedIds, env)
    {
      ghost var start := Snapshot();
      for i := 0 to |failedIds|
        invariant Snapshot() == Retry.RetryAll(start, failedIds[..i], env)
      {
        assert failedIds[..i + 1][..i] == failedIds[..i];
        RetryOne(failedIds[i], env);
      }
      assert failedIds[..|failedIds|] == failedIds;
    }

    /** `retry_failed_mods()`: every id of the ledger until its folder is non-empty, then the ledger is deleted. */
    method RetryFailedMods(env: Env)
      requires Retry.Fair(env)
      modifies this
      ensures Snapshot() == Retry.RetryFailed(old(Snapshot()), env)
    {
      if ledger.None? {
        return;
      }
      var failedIds := Ledger.ReadLedger(ledger.value);
      RetryAll(failedIds, env);
      ledger := None;
      journal := journal + [DeleteLedger];
    }

    /** `create_mod_symlinks()`: returns `symlink_created`. */
    method CreateModSymlinks(env: Env) returns (created: bool)
      modifies this
      ensures (Snapshot(), created) == Links.Provision(old(Snapshot()), reg.modlist, env)
    {
      ghost var start := Snapshot();
      var es := reg.modlist;
      created := false;
      for i := 0 to |es|
        invariant (Snapshot(), created) == Links.Provision(start, es[..i], env)
      {
        assert es[..i + 1][..i] == es[..i];
        var e := es[i];
        if e.id in workshop && !ModExists(Content(workshop, mods), e.name) {
          created := true;
          if e.name !in mods {
            if env.modSymlinkOk(e.name) {
              mods := mods[e.name := ModLink(Symlink, e.id)];
              journal := journal + [CreateModLink(e.name, Symlink, e.id)];
            } else if Platform.IsWindows(env.host) && env.junctionOk(e.name) {
              mods := mods[e.name := ModLink(Junction, e.id)];
              journal := journal + [CreateModLink(e.name, Junction, e.id)];
            }
          }
        }
      }
      assert es[..|es|] == es;
    }

    /** The first loop of `copy_keys()`: dangling links among the listed entries are removed. */
    method PruneKeys(listing: seq<string>)
      modifies this
      ensures Snapshot() == Keys.Prune(old(Snapshot()), listing)
    {
      ghost var start := Snapshot();
      for i := 0 to |listing|
        invariant Snapshot() == Keys.Prune(start, listing[..i])
      {
        assert listing[..i + 1][..i] == listing[..i];
        var key := listing[i];
        if key in keys && Dangling(Content(workshop, mods), keys[key]) {
          keys := keys - {key};
          journal := journal + [UnlinkKey(key)];
        }
      }
      assert listing[..|listing|] == listing;
    }

    /** One iteration of the innermost loop of `copy_keys()`: `held` is `existing_keys`. */
    method ClaimKey(c: Keys.Claim, held: map<string, string>, env: Env) returns (held': map<string, string>)
      requires NoDangling(Snapshot()) && Resolve(Snapshot().Contents(), Keys.Source(c)).Some?
      modifies this
      ensures (Snapshot(), held') == Keys.ClaimStep(old(Snapshot()), held, c, env)
    {
      held' := held;
      if c.key in held {
        return;
      }
      if Keys.Correct(Snapshot(), c.key, c) {
        held' := held[c.key := c.name];
        return;
      }
      if c.key in keys {
        keys := keys - {c.key};
        journal := journal + [UnlinkKey(c.key)];
      }
      if env.keySymlinkOk(c.name, c.key) {
        keys := keys[c.key := KeyLink(Keys.Source(c))];
        journal := journal + [LinkKey(c.key, Keys.Source(c))];
        held' := held[c.key := c.name];
      } else if Platform.IsWindows(env.host) {
        if env.keyCopyOk(c.name, c.key) {
          keys := keys[c.key := KeyFile];
          journal := journal + [CopyKey(c.key, Keys.Source(c))];
          held' := held[c.key := c.name];
        }
      } else {
        held' := held[c.key := c.name];
      }
    }

    /** The innermost loop of `copy_keys()` over the key files one mod offers. */
    method ClaimKeys(offers: seq<Keys.Claim>, held: map<string, string>, env: Env) returns (held': map<string, string>)
      requires NoDangling(Snapshot()) && Keys.AllResolve(Snapshot().Contents(), offers)
      modifies this
      ensures (Snapshot(), held') == Keys.Pass(old(Snapshot()), held, offers, env)
    {
      ghost var start := Snapshot();
      held' := held;
      assert offers[..0] == [];
      for j := 0 to |offers|
        invariant Keys.AllResolve(start.Contents(), offers[..j])
        invariant (Snapshot(), held') == Keys.Pass(start, held, offers[..j], env)
      {
        Keys.PassSnoc(start, held, offers, j, env);
        held' := ClaimKey(offers[j], held', env);
      }
      assert offers[..|offers|] == offers;
    }

    /**
     * `copy_keys()`, given the listing of `KEYS_DIR` it starts from: returns
     * `existing_keys`, which names for each claimed key the mod that won it.
     */
    method CopyKeys(listing: seq<string>, env: Env) returns (held: map<string, string>)
      requires forall k :: k in keys ==> k in listing
      modifies this
      ensures (Snapshot(), held) == Keys.CopyKeys(old(Snapshot()), listing, reg.modnames, env)
    {
      ghost var start := Snapshot();
      PruneKeys(listing);
      Keys.PruneSpec(start, listing);
      ghost var pruned := Snapshot();
      ghost var installed := pruned.Contents();
      var names := reg.modnames;
      held := map[];
      assert Keys.AllOffers(installed, names[..0]) == [];
      for i := 0 to |names|
        invariant Snapshot().Contents() == installed && NoDangling(Snapshot())
        invariant Keys.AllResolve(installed, Keys.AllOffers(installed, names[..i]))
        invariant (Snapshot(), held) == Keys.Pass(pruned, map[], Keys.AllOffers(installed, names[..i]), env)
      {
        Keys.AllOffersSnoc(installed, names, i);
        var offers := Keys.Offers(Content(workshop, mods), names[i]);
        Keys.PassConcat(pruned, map[], Keys.AllOffers(installed, names[..i]), offers, env);
        held := ClaimKeys(offers, held, env);
      }
      assert names[..|names|] == names;
    }

    /** `clearmods()`: the workshop folder of every item of `A3Modlist` is removed. */
    method ClearMods()
      modifies this
      ensures Snapshot() == Orchestrator.ClearAll(old(Snapshot()), reg.modlist)
    {
      ghost var start := Snapshot();
      var es := reg.modlist;
      for i := 0 to |es|
        invariant Snapshot() == Orchestrator.ClearAll(start, es[..i])
      {
        assert es[..i + 1][..i] == es[..i];
        if es[i].id in workshop {
          workshop := workshop - {es[i].id};
          journal := journal + [RemoveInstall(es[i].id)];
        }
      }
      assert es[..|es|] == es;
    }
  }
}
