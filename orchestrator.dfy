/**
 * `update_mods`, `ForeUpdate` and `clearmods` over the registry's
 * `A3Modlist`: which mods are fetched again, how many times the download
 * tool runs for each, and what the failed-mods ledger records.
 */
module Orchestrator {
  import opened Base
  import opened FileSystem
  import opened Checks
  import opened Ledger
  import Registry

  /** One run of the download tool for `id`; what it leaves comes from the oracle. */
  function FetchOnce(s: State, id: string, env: Env): State {
    var w := match env.fetch(|s.journal|)
      case Some(d) => s.workshop[id := d]
      case None => s.workshop;
    s.(workshop := w, journal := s.journal + [Fetch(id)])
  }

  /** `n` runs of the download tool for `id`, as journal entries. */
  function Fetches(id: string, n: nat): seq<Op> {
    seq(n, _ => Fetch(id))
  }

  /** The state after `k` runs of the download tool for `id` in a row. */
  function AfterFetches(s: State, id: string, k: nat, env: Env): State {
    if k == 0 then s else FetchOnce(AfterFetches(s, id, k - 1, env), id, env)
  }

  /** Fetching `id` appends to the journal and touches nothing but `WORKSHOP_DIR/id`. */
  lemma {:induction false} AfterFetchesFrame(s: State, id: string, k: nat, env: Env)
    ensures AfterFetches(s, id, k, env).journal == s.journal + Fetches(id, k)
    ensures AfterFetches(s, id, k, env).workshop - {id} == s.workshop - {id}
    ensures AfterFetches(s, id, k, env).(workshop := s.workshop, journal := s.journal) == s
  {
    if k > 0 {
      AfterFetchesFrame(s, id, k - 1, env);
      assert Fetches(id, k - 1) + [Fetch(id)] == Fetches(id, k);
    }
  }

  /** Running the tool once and then `k` times is running it `k + 1` times. */
  lemma {:induction false} AfterFetchesShift(s: State, id: string, k: nat, env: Env)
    ensures AfterFetches(FetchOnce(s, id, env), id, k, env) == AfterFetches(s, id, k + 1, env)
  {
    if k > 0 {
      AfterFetchesShift(s, id, k - 1, env);
    }
  }

  /**
   * The `while (not path.is_dir()) and tries < MAX_TRIES` loop, from a
   * counter value `tries`: the state it leaves and the final counter.
   */
  function FetchUntil(s: State, id: string, tries: int, env: Env): (State, int)
    decreases env.maxTries - tries
  {
    if id !in s.workshop && tries < env.maxTries then FetchUntil(FetchOnce(s, id, env), id, tries + 1, env)
    else (s, tries)
  }

  /**
   * The loop runs the tool `n - tries` times: it stops at the first moment
   * `WORKSHOP_DIR/id` exists or the counter reaches `MAX_TRIES`, and never
   * counts past `MAX_TRIES`.
   */
  lemma {:induction false} FetchUntilSpec(s: State, id: string, tries: int, env: Env)
    ensures FetchUntil(s, id, tries, env).1 >= tries
    ensures FetchUntil(s, id, tries, env).0 == AfterFetches(s, id, FetchUntil(s, id, tries, env).1 - tries, env)
    ensures id in FetchUntil(s, id, tries, env).0.workshop || FetchUntil(s, id, tries, env).1 >= env.maxTries
    ensures FetchUntil(s, id, tries, env).1 > tries ==> FetchUntil(s, id, tries, env).1 <= env.maxTries
    ensures forall k: nat :: k < FetchUntil(s, id, tries, env).1 - tries ==>
      id !in AfterFetches(s, id, k, env).workshop && tries + k < env.maxTries
    decreases env.maxTries - tries
  {
    if id !in s.workshop && tries < env.maxTries {
      var s1 := FetchOnce(s, id, env);
      FetchUntilSpec(s1, id, tries + 1, env);
      var n := FetchUntil(s, id, tries, env).1;
      AfterFetchesShift(s, id, n - tries - 1, env);
      forall k: nat | k < n - tries
        ensures id !in AfterFetches(s, id, k, env).workshop && tries + k < env.maxTries
      {
        if k > 0 {
          AfterFetchesShift(s, id, k - 1, env);
        }
      }
    }
  }

  /** Whether `update_mods` leaves an installed mod alone: no remote update and a non-empty addons folder. */
  predicate Skips(s: State, e: Registry.Entry, env: Env) {
    e.id in s.workshop && !Stale(env.changelog(e.id), s.workshop[e.id])
  }

  /** The state before the download loop: an installed copy is removed and `lowercase` set. */
  function Prepared(s: State, e: Registry.Entry): State {
    if e.id in s.workshop then Uninstall(s, e.id).(lowercase := true) else s
  }

  /** The attempt counter `tries` after the download loop. */
  function Attempts(s: State, e: Registry.Entry, env: Env): int {
    FetchUntil(Prepared(s, e), e.id, 0, env).1
  }

  /** Appending `id\n` to `failed_mods.txt`, creating it when absent. */
  function Record(s: State, id: string): State {
    s.(ledger := Some(s.ledger.GetOr([]) + id + "\n"), journal := s.journal + [AppendLedger(id)])
  }

  /** One iteration of `update_mods`' loop over `A3Modlist`. */
  function SyncMod(s: State, e: Registry.Entry, env: Env): State {
    if Skips(s, e, env) then s
    else
      var r := FetchUntil(Prepared(s, e), e.id, 0, env).0;
      if Attempts(s, e, env) >= env.maxTries then Record(r, e.id) else r
  }

  /** The journal entries one iteration adds for a mod it does not skip. */
  function SyncOps(s: State, e: Registry.Entry, env: Env): seq<Op> {
    var n := Attempts(s, e, env);
    (if e.id in s.workshop then [RemoveInstall(e.id)] else [])
    + Fetches(e.id, if n < 0 then 0 else n)
    + (if n >= env.maxTries then [AppendLedger(e.id)] else [])
  }

  /**
   * One iteration: a skipped mod changes nothing. Otherwise an installed
   * copy is removed first, the tool runs at most `MAX_TRIES` times and stops
   * once the folder exists, and the id is appended to the ledger exactly
   * when the counter reached `MAX_TRIES`, whether or not the last run
   * delivered. The mods and keys directories and every other workshop
   * folder are left alone.
   */
  lemma SyncModSpec(s: State, e: Registry.Entry, env: Env)
    ensures Skips(s, e, env) ==> SyncMod(s, e, env) == s
    ensures !Skips(s, e, env) ==>
      var n := Attempts(s, e, env);
      var r := SyncMod(s, e, env);
      && 0 <= n && (n > 0 ==> n <= env.maxTries)
      && r.journal == s.journal + SyncOps(s, e, env)
      && (n < env.maxTries ==> e.id in r.workshop)
      && r.ledger == (if n >= env.maxTries then Some(s.ledger.GetOr([]) + e.id + "\n") else s.ledger)
      && r.mods == s.mods && r.keys == s.keys
      && r.workshop - {e.id} == s.workshop - {e.id}
      && r.lowercase == (s.lowercase || e.id in s.workshop)
  {
    if !Skips(s, e, env) {
      var p := Prepared(s, e);
      PreparedSpec(s, e);
      DownloadLoop(p, e.id, env);
    }
  }

  /** Removing an installed copy before the loop touches only its folder, the journal and `lowercase`. */
  lemma PreparedSpec(s: State, e: Registry.Entry)
    ensures Prepared(s, e).journal == s.journal + (if e.id in s.workshop then [RemoveInstall(e.id)] else [])
    ensures Prepared(s, e).workshop - {e.id} == s.workshop - {e.id}
    ensures Prepared(s, e).(workshop := s.workshop, journal := s.journal, lowercase := s.lowercase) == s
    ensures Prepared(s, e).lowercase == (s.lowercase || e.id in s.workshop)
  {
  }

  /**
   * The download loop from a zero counter runs the tool `n` times, with
   * `n` at most `MAX_TRIES` when positive, and leaves the folder in place
   * unless the counter ran out; it touches nothing but that folder and the
   * journal.
   */
  lemma DownloadLoop(p: State, id: string, env: Env)
    ensures var n := FetchUntil(p, id, 0, env).1;
      0 <= n && (n > 0 ==> n <= env.maxTries)
    ensures var (r, n) := FetchUntil(p, id, 0, env);
      n >= 0 && r.journal == p.journal + Fetches(id, n)
      && (n < env.maxTries ==> id in r.workshop)
      && r.workshop - {id} == p.workshop - {id}
      && r.(workshop := p.workshop, journal := p.journal) == p
  {
    FetchUntilSpec(p, id, 0, env);
    var n := FetchUntil(p, id, 0, env).1;
    AfterFetchesFrame(p, id, n, env);
  }

  /** The journal and the ledger after one iteration that does not skip. */
  lemma SyncModRecord(s: State, e: Registry.Entry, env: Env)
    requires !Skips(s, e, env)
    ensures SyncMod(s, e, env).journal == s.journal + SyncOps(s, e, env)
    ensures SyncMod(s, e, env).ledger ==
      if Attempts(s, e, env) >= env.maxTries then Some(s.ledger.GetOr([]) + e.id + "\n") else s.ledger
  {
    SyncModSpec(s, e, env);
  }

  /** Under `MAX_TRIES <= 0` every mod that is not skipped goes to the ledger without a single download. */
  lemma NoTriesRecordsAll(s: State, e: Registry.Entry, env: Env)
    requires env.maxTries <= 0 && !Skips(s, e, env)
    ensures Attempts(s, e, env) == 0
    ensures SyncMod(s, e, env).journal == s.journal + (if e.id in s.workshop then [RemoveInstall(e.id)] else []) + [AppendLedger(e.id)]
    ensures SyncMod(s, e, env).ledger == Some(s.ledger.GetOr([]) + e.id + "\n")
  {
    SyncModSpec(s, e, env);
    assert Fetches(e.id, 0) == [];
  }

  /**
   * A mod whose folder appears only on the last permitted run is installed
   * and still written to the ledger: the counter has reached `MAX_TRIES`.
   */
  lemma LastAttemptRecorded(s: State, e: Registry.Entry, env: Env)
    requires env.maxTries >= 1 && e.id !in s.workshop
    requires forall n :: |s.journal| <= n < |s.journal| + env.maxTries - 1 ==> env.fetch(n).None?
    requires env.fetch(|s.journal| + env.maxTries - 1).Some?
    ensures Attempts(s, e, env) == env.maxTries
    ensures e.id in SyncMod(s, e, env).workshop
    ensures SyncMod(s, e, env).ledger == Some(s.ledger.GetOr([]) + e.id + "\n")
  {
    assert Prepared(s, e) == s;
    DeliversLast(s, e.id, 0, |s.journal|, env);
    FetchUntilSpec(s, e.id, 0, env);
    AfterFetchesFrame(s, e.id, env.maxTries, env);
  }

  /**
   * From counter `t`, when every run before the last permitted one leaves
   * nothing and the last one delivers, the loop runs to `MAX_TRIES` and
   * ends with the folder in place.
   */
  lemma {:induction false} DeliversLast(p: State, id: string, t: int, j: int, env: Env)
    requires 0 <= t <= env.maxTries - 1 && id !in p.workshop && |p.journal| == j + t
    requires forall n :: j + t <= n < j + env.maxTries - 1 ==> env.fetch(n).None?
    requires env.fetch(j + env.maxTries - 1).Some?
    ensures FetchUntil(p, id, t, env).1 == env.maxTries
    ensures id in FetchUntil(p, id, t, env).0.workshop
    decreases env.maxTries - t
  {
    var p1 := FetchOnce(p, id, env);
    if t < env.maxTries - 1 {
      assert env.fetch(j + t).None?;
      DeliversLast(p1, id, t + 1, j, env);
    } else {
      assert FetchUntil(p1, id, t + 1, env) == (p1, t + 1);
    }
  }

  /** `update_mods`' loop over the first `|es|` items of `A3Modlist`. */
  function SyncAll(s: State, es: seq<Registry.Entry>, env: Env): State {
    if es == [] then s else SyncMod(SyncAll(s, es[..|es| - 1], env), es[|es| - 1], env)
  }

  /** `FAILED_MODS_FILE.unlink()` when it exists. */
  function ClearLedger(s: State): State {
    if s.ledger.Some? then s.(ledger := None, journal := s.journal + [DeleteLedger]) else s
  }

  /** `update_mods()`: the ledger is deleted, then each item of `A3Modlist` is synchronised in order. */
  function UpdateMods(s: State, es: seq<Registry.Entry>, env: Env): State {
    SyncAll(ClearLedger(s), es, env)
  }

  /** The ids of the ledger appends in a journal, in order. */
  function Appended(ops: seq<Op>): seq<string> {
    if ops == [] then []
    else (if ops[0].AppendLedger? then [ops[0].id] else []) + Appended(ops[1..])
  }

  lemma {:induction false} AppendedConcat(a: seq<Op>, b: seq<Op>)
    ensures Appended(a + b) == Appended(a) + Appended(b)
    decreases |a|
  {
    if a == [] {
      assert a + b == b;
    } else {
      assert (a + b)[0] == a[0] && (a + b)[1..] == a[1..] + b;
      AppendedConcat(a[1..], b);
      var h := if a[0].AppendLedger? then [a[0].id] else [];
      calc {
        Appended(a + b);
        h + Appended(a[1..] + b);
        h + (Appended(a[1..]) + Appended(b));
        (h + Appended(a[1..])) + Appended(b);
        Appended(a) + Appended(b);
      }
    }
  }

  lemma {:induction false} AppendedFetches(id: string, n: nat)
    ensures Appended(Fetches(id, n)) == []
  {
    if n > 0 {
      assert Fetches(id, n) == [Fetch(id)] + Fetches(id, n - 1);
      AppendedFetches(id, n - 1);
    }
  }

  lemma {:induction false} SerializeConcat(a: seq<string>, b: seq<string>)
    ensures Serialize(a + b) == Serialize(a) + Serialize(b)
    decreases |a|
  {
    if a == [] {
      assert a + b == b;
    } else {
      assert (a + b)[0] == a[0] && (a + b)[1..] == a[1..] + b;
      SerializeConcat(a[1..], b);
      calc {
        Serialize(a + b);
        a[0] + "\n" + Serialize(a[1..] + b);
        a[0] + "\n" + (Serialize(a[1..]) + Serialize(b));
        (a[0] + "\n" + Serialize(a[1..])) + Serialize(b);
        Serialize(a) + Serialize(b);
      }
    }
  }

  /** The ledger's text after `ids` are appended to `l`. */
  function LedgerAfter(l: Option<string>, ids: seq<string>): Option<string> {
    if ids == [] then l else Some(l.GetOr([]) + Serialize(ids))
  }

  /** The ids an iteration appends: its own id, or none. */
  lemma SyncOpsAppended(s: State, e: Registry.Entry, env: Env)
    ensures Appended(SyncOps(s, e, env)) == if Attempts(s, e, env) >= env.maxTries then [e.id] else []
  {
    var n := Attempts(s, e, env);
    var pre: seq<Op> := if e.id in s.workshop then [RemoveInstall(e.id)] else [];
    var post: seq<Op> := if n >= env.maxTries then [AppendLedger(e.id)] else [];
    var f := Fetches(e.id, if n < 0 then 0 else n);
    AppendedConcat(pre + f, post);
    AppendedConcat(pre, f);
    AppendedFetches(e.id, if n < 0 then 0 else n);
    assert Appended(pre) == [];
    if n >= env.maxTries {
      assert Appended(post) == Appended([AppendLedger(e.id)]) == [e.id];
    }
  }

  /** The ids of a sequence of `A3Modlist` items. */
  function Ids(es: seq<Registry.Entry>): seq<string> {
    seq(|es|, i requires 0 <= i < |es| => es[i].id)
  }

  /** Appending one more id to the ledger's text. */
  lemma LedgerAfterSnoc(l: Option<string>, ids: seq<string>, id: string)
    ensures LedgerAfter(l, ids + [id]) == Some(LedgerAfter(l, ids).GetOr([]) + id + "\n")
  {
    var base := l.GetOr([]);
    SerializeConcat(ids, [id]);
    assert Serialize([id]) == id + "\n" + [];
    calc {
      base + Serialize(ids + [id]);
      base + (Serialize(ids) + (id + "\n" + []));
      base + Serialize(ids) + id + "\n";
    }
    if ids == [] {
      assert base + Serialize(ids) == base;
    }
  }

  /**
   * One iteration extends the ledger's text by the ids its own journal
   * entries append, which are its own id or none.
   */
  lemma SyncModLedger(s: State, m: State, e: Registry.Entry, env: Env)
    requires s.journal <= m.journal
    requires m.ledger == LedgerAfter(s.ledger, Appended(m.journal[|s.journal|..]))
    ensures s.journal <= SyncMod(m, e, env).journal
    ensures SyncMod(m, e, env).ledger == LedgerAfter(s.ledger, Appended(SyncMod(m, e, env).journal[|s.journal|..]))
    ensures Appended(SyncMod(m, e, env).journal[|s.journal|..])
      == Appended(m.journal[|s.journal|..]) + (if Exhausted(m, e, env) then [e.id] else [])
  {
    var r := SyncMod(m, e, env);
    var a := m.journal[|s.journal|..];
    if !Skips(m, e, env) {
      SyncModRecord(m, e, env);
      var y := SyncOps(m, e, env);
      assert r.journal[|s.journal|..] == a + y;
      AppendedConcat(a, y);
      SyncOpsAppended(m, e, env);
      if Attempts(m, e, env) >= env.maxTries {
        LedgerAfterSnoc(s.ledger, Appended(a), e.id);
      } else {
        assert Appended(a + y) == Appended(a) + [];
        assert Appended(a) + [] == Appended(a);
      }
    } else {
      assert Appended(a) + [] == Appended(a);
    }
  }

  /** An iteration that does not skip its mod and ends with the counter at `MAX_TRIES`. */
  predicate Exhausted(s: State, e: Registry.Entry, env: Env) {
    !Skips(s, e, env) && Attempts(s, e, env) >= env.maxTries
  }

  /**
   * The ids `update_mods` means to record, in registry order: those items
   * whose iteration, run on the state the earlier ones left, was exhausted.
   */
  function Recorded(s: State, es: seq<Registry.Entry>, env: Env): seq<string> {
    if es == [] then []
    else
      var init := es[..|es| - 1];
      var e := es[|es| - 1];
      Recorded(s, init, env) + (if Exhausted(SyncAll(s, init, env), e, env) then [e.id] else [])
  }

  /**
   * Over any run of iterations, the ledger's new text is the ids of the
   * journal's appends, each on its own line, and each of them is the id of
   * one of the items.
   */
  lemma {:induction false} SyncAllLedger(s: State, es: seq<Registry.Entry>, env: Env)
    ensures s.journal <= SyncAll(s, es, env).journal
    ensures SyncAll(s, es, env).ledger == LedgerAfter(s.ledger, Appended(SyncAll(s, es, env).journal[|s.journal|..]))
    ensures Appended(SyncAll(s, es, env).journal[|s.journal|..]) == Recorded(s, es, env)
    ensures forall x :: x in Appended(SyncAll(s, es, env).journal[|s.journal|..]) ==> x in Ids(es)
  {
    if es == [] {
      assert s.journal[|s.journal|..] == [];
    } else {
      var init := es[..|es| - 1];
      var e := es[|es| - 1];
      SyncAllLedger(s, init, env);
      SyncModLedger(s, SyncAll(s, init, env), e, env);
      assert Ids(init) == Ids(es)[..|es| - 1];
      assert Ids(es)[|es| - 1] == e.id;
    }
  }

  /**
   * After `update_mods()` the ledger exists exactly when some mod ran out of
   * attempts, and then holds the ids of those mods in registry order, one
   * per line; `retry_failed_mods` reads exactly those ids back whenever the
   * registry's ids survive a round trip through a line of text.
   */
  lemma UpdateModsLedger(s: State, es: seq<Registry.Entry>, env: Env)
    ensures s.journal <= UpdateMods(s, es, env).journal
    ensures var r := UpdateMods(s, es, env);
      var ids := Appended(r.journal[|s.journal|..]);
      && (r.ledger.None? <==> ids == [])
      && (r.ledger.Some? ==> r.ledger.value == Serialize(ids))
      && ids == Recorded(ClearLedger(s), es, env)
    ensures (forall i :: 0 <= i < |es| ==> LedgerSafe(es[i].id)) && UpdateMods(s, es, env).ledger.Some? ==>
      ReadLedger(UpdateMods(s, es, env).ledger.value) == Appended(UpdateMods(s, es, env).journal[|s.journal|..])
  {
    UpdateModsAppends(s, es, env);
    var r := UpdateMods(s, es, env);
    var ids := Appended(r.journal[|s.journal|..]);
    assert [] + Serialize(ids) == Serialize(ids);
    if r.ledger.Some? && forall i :: 0 <= i < |es| ==> LedgerSafe(es[i].id) {
      forall i | 0 <= i < |ids|
        ensures LedgerSafe(ids[i])
      {
        assert ids[i] in Ids(es);
      }
      ReadSerialize(ids);
    }
  }

  /** After `update_mods()` the ledger, deleted first, holds exactly the ids appended since, all of them ids of items. */
  lemma UpdateModsAppends(s: State, es: seq<Registry.Entry>, env: Env)
    ensures s.journal <= UpdateMods(s, es, env).journal
    ensures UpdateMods(s, es, env).ledger == LedgerAfter(None, Appended(UpdateMods(s, es, env).journal[|s.journal|..]))
    ensures Appended(UpdateMods(s, es, env).journal[|s.journal|..]) == Recorded(ClearLedger(s), es, env)
    ensures forall x :: x in Appended(UpdateMods(s, es, env).journal[|s.journal|..]) ==> x in Ids(es)
  {
    var c := ClearLedger(s);
    var r := UpdateMods(s, es, env);
    SyncAllLedger(c, es, env);
    var pre: seq<Op> := if s.ledger.Some? then [DeleteLedger] else [];
    assert c.journal == s.journal + pre;
    var a := r.journal[|c.journal|..];
    assert r.journal[|s.journal|..] == pre + a;
    AppendedConcat(pre, a);
    assert Appended(pre) == [];
    assert Appended(r.journal[|s.journal|..]) == Appended(a);
    assert c.ledger == None;
  }

  /** `ForeUpdate()`: one run of the download tool per item of `A3Modlist`, whatever is installed. */
  function ForceAll(s: State, es: seq<Registry.Entry>, env: Env): State {
    if es == [] then s else FetchOnce(ForceAll(s, es[..|es| - 1], env), es[|es| - 1].id, env)
  }

  /**
   * `ForeUpdate()` runs the tool exactly once per item, in registry order,
   * and changes nothing but the workshop folders of those items.
   */
  lemma {:induction false} ForceAllSpec(s: State, es: seq<Registry.Entry>, env: Env)
    ensures ForceAll(s, es, env).journal == s.journal + seq(|es|, i requires 0 <= i < |es| => Fetch(es[i].id))
    ensures ForceAll(s, es, env).(workshop := s.workshop, journal := s.journal) == s
    ensures forall x :: x !in Ids(es) ==>
      (x in ForceAll(s, es, env).workshop <==> x in s.workshop)
      && (x in s.workshop ==> ForceAll(s, es, env).workshop[x] == s.workshop[x])
  {
    if es != [] {
      var init := es[..|es| - 1];
      ForceAllSpec(s, init, env);
      assert Ids(init) == Ids(es)[..|es| - 1];
      assert Ids(es)[|es| - 1] == es[|es| - 1].id;
      assert seq(|init|, i requires 0 <= i < |init| => Fetch(init[i].id)) + [Fetch(es[|es| - 1].id)]
        == seq(|es|, i requires 0 <= i < |es| => Fetch(es[i].id));
    }
  }

  /** One iteration of `clearmods()`: an installed folder is removed. */
  function ClearMod(s: State, e: Registry.Entry): State {
    if e.id in s.workshop then Uninstall(s, e.id) else s
  }

  /** `clearmods()` over the items of `A3Modlist`. */
  function ClearAll(s: State, es: seq<Registry.Entry>): State {
    if es == [] then s else ClearMod(ClearAll(s, es[..|es| - 1]), es[|es| - 1])
  }

  /**
   * `clearmods()` removes the workshop folder of every listed id and keeps
   * every other folder, the mods and keys directories, the ledger and the
   * `lowercase` flag.
   */
  lemma {:induction false} ClearAllSpec(s: State, es: seq<Registry.Entry>)
    ensures ClearAll(s, es).workshop == map k | k in s.workshop && k !in Ids(es) :: s.workshop[k]
    ensures ClearAll(s, es).(workshop := s.workshop, journal := s.journal) == s
  {
    if es != [] {
      var init := es[..|es| - 1];
      ClearAllSpec(s, init);
      assert Ids(es) == Ids(init) + [es[|es| - 1].id];
    }
  }
}
