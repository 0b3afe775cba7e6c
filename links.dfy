/**
 * `create_mod_symlinks`: for each item of `A3Modlist`, a link
 * `MODS_DIR/<name>` to `WORKSHOP_DIR/<id>` is made when the folder exists
 * and nothing is at the link's path; a symbolic link first, a directory
 * junction on Windows when that fails.
 */
module Links {
  import opened Base
  import opened FileSystem
  import Platform
  import Registry

  /** Whether a link for `name` can be made: a symbolic link, or on Windows a junction. */
  predicate CanLink(env: Env, name: string) {
    env.modSymlinkOk(name) || (Platform.IsWindows(env.host) && env.junctionOk(name))
  }

  /** A new link of the given kind at `MODS_DIR/<e.name>`. */
  function AddLink(s: State, e: Registry.Entry, kind: LinkKind): State {
    s.(mods := s.mods[e.name := ModLink(kind, e.id)], journal := s.journal + [CreateModLink(e.name, kind, e.id)])
  }

  /**
   * One iteration: the new state and whether it entered the creation branch
   * (which sets `symlink_created`). A dangling link at the path does not
   * count as existing, yet both `os.symlink` and `mklink /J` find the path
   * taken, so nothing is made.
   */
  function LinkMod(s: State, e: Registry.Entry, env: Env): (State, bool) {
    if e.id in s.workshop && !ModExists(s.Contents(), e.name) then
      if e.name in s.mods then (s, true)
      else if env.modSymlinkOk(e.name) then (AddLink(s, e, Symlink), true)
      else if Platform.IsWindows(env.host) && env.junctionOk(e.name) then (AddLink(s, e, Junction), true)
      else (s, true)
    else (s, false)
  }

  /** `create_mod_symlinks()` over the first `|es|` items: the state and the final `symlink_created`. */
  function Provision(s: State, es: seq<Registry.Entry>, env: Env): (State, bool) {
    if es == [] then (s, false)
    else
      var (m, created) := Provision(s, es[..|es| - 1], env);
      var (r, now) := LinkMod(m, es[|es| - 1], env);
      (r, created || now)
  }

  /** One iteration keeps every entry, adds at most the link of its own item and touches nothing else. */
  lemma LinkModEffect(m: State, e: Registry.Entry, env: Env)
    ensures forall n :: n in m.mods ==> n in LinkMod(m, e, env).0.mods && LinkMod(m, e, env).0.mods[n] == m.mods[n]
    ensures forall n :: n in LinkMod(m, e, env).0.mods && n !in m.mods ==>
      n == e.name && LinkMod(m, e, env).0.mods[n].ModLink? && LinkMod(m, e, env).0.mods[n].target == e.id
      && e.id in m.workshop
    ensures e.id in m.workshop && CanLink(env, e.name) ==> e.name in LinkMod(m, e, env).0.mods
    ensures LinkMod(m, e, env).0.(mods := m.mods, journal := m.journal) == m
    ensures !LinkMod(m, e, env).1 ==> LinkMod(m, e, env).0 == m
  {
  }

  /**
   * Provisioning never replaces or removes an entry of `MODS_DIR`; only the
   * mods directory and the journal change, and when `symlink_created` stays
   * false nothing changes at all.
   */
  lemma {:induction false} ProvisionFrame(s: State, es: seq<Registry.Entry>, env: Env)
    ensures forall n :: n in s.mods ==> n in Provision(s, es, env).0.mods && Provision(s, es, env).0.mods[n] == s.mods[n]
    ensures Provision(s, es, env).0.(mods := s.mods, journal := s.journal) == s
    ensures !Provision(s, es, env).1 ==> Provision(s, es, env).0 == s
  {
    if es != [] {
      ProvisionFrame(s, es[..|es| - 1], env);
      LinkModEffect(Provision(s, es[..|es| - 1], env).0, es[|es| - 1], env);
    }
  }

  /**
   * Every new entry is a link named after an item and leading to that
   * item's existing workshop folder, and every item whose folder exists and
   * whose link can be made has an entry afterwards.
   */
  lemma {:induction false} ProvisionLinks(s: State, es: seq<Registry.Entry>, env: Env)
    ensures forall n :: n in Provision(s, es, env).0.mods && n !in s.mods ==>
      Provision(s, es, env).0.mods[n].ModLink?
      && Provision(s, es, env).0.mods[n].target in s.workshop
      && Registry.Entry(n, Provision(s, es, env).0.mods[n].target) in es
    ensures forall i :: 0 <= i < |es| && es[i].id in s.workshop && CanLink(env, es[i].name) ==>
      es[i].name in Provision(s, es, env).0.mods
  {
    if es != [] {
      var init := es[..|es| - 1];
      var e := es[|es| - 1];
      ProvisionLinks(s, init, env);
      ProvisionFrame(s, init, env);
      var m := Provision(s, init, env).0;
      LinkModEffect(m, e, env);
      var r := Provision(s, es, env).0;
      assert r == LinkMod(m, e, env).0;
      assert forall x :: x in init ==> x in es;
      assert e in es;
      forall i | 0 <= i < |es| && es[i].id in s.workshop && CanLink(env, es[i].name)
        ensures es[i].name in r.mods
      {
        if i < |es| - 1 {
          assert es[i] == init[i];
        }
      }
    }
  }

  /** An iteration changes nothing once its item's link exists or cannot be made. */
  lemma LinkModStable(r: State, e: Registry.Entry, env: Env)
    requires e.id in r.workshop && CanLink(env, e.name) ==> e.name in r.mods
    ensures LinkMod(r, e, env).0 == r
  {
  }

  /** A pass over items that are all settled in that sense changes nothing. */
  lemma {:induction false} ProvisionStable(r: State, es: seq<Registry.Entry>, env: Env)
    requires forall i :: 0 <= i < |es| && es[i].id in r.workshop && CanLink(env, es[i].name) ==> es[i].name in r.mods
    ensures Provision(r, es, env).0 == r
  {
    if es != [] {
      var init := es[..|es| - 1];
      forall i | 0 <= i < |init| && init[i].id in r.workshop && CanLink(env, init[i].name)
        ensures init[i].name in r.mods
      {
        assert init[i] == es[i];
      }
      ProvisionStable(r, init, env);
      LinkModStable(r, es[|es| - 1], env);
    }
  }

  /** A second `create_mod_symlinks()` with unchanged outcomes creates nothing: provisioning is idempotent. */
  lemma ProvisionIdempotent(s: State, es: seq<Registry.Entry>, env: Env)
    ensures Provision(Provision(s, es, env).0, es, env).0 == Provision(s, es, env).0
  {
    var r := Provision(s, es, env).0;
    ProvisionFrame(s, es, env);
    ProvisionLinks(s, es, env);
    ProvisionStable(r, es, env);
  }
}
