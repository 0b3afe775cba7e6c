/**
 * `retry_failed_mods`: every id in the failed-mods ledger is fetched again
 * until its workshop folder is non-empty, then the ledger is deleted. The
 * script puts no bound on the attempts; the model asks instead that the
 * download tool does not fail for ever.
 */
module Retry {
  import opened Base
  import opened FileSystem
  import opened Checks
  import opened Ledger
  import opened Orchestrator

  /** A run of the tool that leaves a folder with at least one entry. */
  predicate Delivers(o: Option<Dir>) {
    o.Some? && |o.value.children| > 0
  }

  /** Some run from the `n`-th effect on delivers. */
  ghost predicate DeliversFrom(env: Env, n: nat) {
    exists j: nat :: n <= j && Delivers(env.fetch(j))
  }

  /** However many runs have failed, a later one delivers. */
  ghost predicate Fair(env: Env) {
    forall n: nat :: DeliversFrom(env, n)
  }

  /** The first delivering run from position `i`, given that the run at `j` delivers. */
  function SearchFrom(env: Env, i: nat, j: nat): (r: nat)
    requires i <= j && Delivers(env.fetch(j))
    ensures i <= r <= j && Delivers(env.fetch(r))
    ensures forall k :: i <= k < r ==> !Delivers(env.fetch(k))
    decreases j - i
  {
    if Delivers(env.fetch(i)) then i else SearchFrom(env, i + 1, j)
  }

  /** The first delivering run from the `n`-th effect on. */
  ghost function FirstDelivery(env: Env, n: nat): (r: nat)
    requires DeliversFrom(env, n)
    ensures n <= r && Delivers(env.fetch(r))
    ensures forall k :: n <= k < r ==> !Delivers(env.fetch(k))
  {
    var j: nat :| n <= j && Delivers(env.fetch(j));
    SearchFrom(env, n, j)
  }

  /** How many times the `while True` loop runs the tool for `id`: none if the folder is already non-empty. */
  ghost function RetryCount(s: State, id: string, env: Env): nat
    requires Fair(env)
  {
    if Ready(s, id) then 0 else FirstDelivery(env, |s.journal|) - |s.journal| + 1
  }

  /** The state after the `while True` loop for `id`. */
  ghost function RetryOne(s: State, id: string, env: Env): State
    requires Fair(env)
  {
    AfterFetches(s, id, RetryCount(s, id, env), env)
  }

  /** Runs that do not deliver leave a missing or empty folder missing or empty. */
  lemma {:induction false} NotReadyBefore(s: State, id: string, k: nat, env: Env)
    requires !Ready(s, id)
    requires forall i :: |s.journal| <= i < |s.journal| + k ==> !Delivers(env.fetch(i))
    ensures !Ready(AfterFetches(s, id, k, env), id)
  {
    if k > 0 {
      NotReadyBefore(s, id, k - 1, env);
      AfterFetchesFrame(s, id, k - 1, env);
    }
  }

  /**
   * With a tool that never again delivers, the `while True` loop never
   * stops: no number of runs leaves a non-empty folder.
   */
  lemma NeverDeliversNeverStops(s: State, id: string, env: Env)
    requires !Ready(s, id) && !DeliversFrom(env, |s.journal|)
    ensures forall k: nat :: !Ready(AfterFetches(s, id, k, env), id)
  {
    forall k: nat
      ensures !Ready(AfterFetches(s, id, k, env), id)
    {
      NotReadyBefore(s, id, k, env);
    }
  }

  /**
   * The loop for one id stops at the first moment the folder is non-empty:
   * it runs the tool not at all when it already is, and otherwise until the
   * first delivering run. Only that folder and the journal change.
   */
  lemma RetryOneSpec(s: State, id: string, env: Env)
    requires Fair(env)
    ensures Ready(RetryOne(s, id, env), id)
    ensures RetryCount(s, id, env) == 0 <==> Ready(s, id)
    ensures forall k: nat :: k < RetryCount(s, id, env) ==> !Ready(AfterFetches(s, id, k, env), id)
    ensures RetryOne(s, id, env).journal == s.journal + Fetches(id, RetryCount(s, id, env))
    ensures RetryOne(s, id, env).workshop - {id} == s.workshop - {id}
    ensures RetryOne(s, id, env).(workshop := s.workshop, journal := s.journal) == s
  {
    var c := RetryCount(s, id, env);
    AfterFetchesFrame(s, id, c, env);
    if !Ready(s, id) {
      var n := |s.journal|;
      var f := FirstDelivery(env, n);
      AfterFetchesFrame(s, id, c - 1, env);
      assert |AfterFetches(s, id, c - 1, env).journal| == f;
      forall k: nat | k < c
        ensures !Ready(AfterFetches(s, id, k, env), id)
      {
        NotReadyBefore(s, id, k, env);
      }
    }
  }

  /** The loop for one id stops at its count: no earlier state has a non-empty folder. */
  lemma RetryStops(s: State, id: string, k: nat, env: Env)
    requires Fair(env) && k <= RetryCount(s, id, env) && Ready(AfterFetches(s, id, k, env), id)
    ensures k == RetryCount(s, id, env)
  {
    RetryOneSpec(s, id, env);
  }

  /** While the folder is missing or empty the loop has runs left. */
  lemma RetryGoesOn(s: State, id: string, k: nat, env: Env)
    requires Fair(env) && k <= RetryCount(s, id, env) && !Ready(AfterFetches(s, id, k, env), id)
    ensures k < RetryCount(s, id, env)
  {
    RetryOneSpec(s, id, env);
  }

  /** The loops for the first `|ids|` ids of the ledger, in file order. */
  ghost function RetryAll(s: State, ids: seq<string>, env: Env): State
    requires Fair(env)
  {
    if ids == [] then s else RetryOne(RetryAll(s, ids[..|ids| - 1], env), ids[|ids| - 1], env)
  }

  /** The ids that one journal entry fetches. */
  predicate FetchOf(op: Op, ids: seq<string>) {
    op.Fetch? && op.id in ids
  }

  /**
   * The loops add only runs of the tool for listed ids to the journal and
   * leave the folders of other ids, and everything else, unchanged.
   */
  lemma {:induction false} RetryAllFrame(s: State, ids: seq<string>, env: Env)
    requires Fair(env)
    ensures s.journal <= RetryAll(s, ids, env).journal
    ensures forall i :: |s.journal| <= i < |RetryAll(s, ids, env).journal| ==>
      FetchOf(RetryAll(s, ids, env).journal[i], ids)
    ensures forall x :: x !in ids ==>
      (x in RetryAll(s, ids, env).workshop <==> x in s.workshop)
      && (x in s.workshop ==> RetryAll(s, ids, env).workshop[x] == s.workshop[x])
    ensures RetryAll(s, ids, env).(workshop := s.workshop, journal := s.journal) == s
  {
    if ids != [] {
      var init := ids[..|ids| - 1];
      var id := ids[|ids| - 1];
      var m := RetryAll(s, init, env);
      RetryAllFrame(s, init, env);
      RetryOneSpec(m, id, env);
      var r := RetryAll(s, ids, env);
      assert forall x :: x in init ==> x in ids;
      forall x | x !in ids
        ensures (x in r.workshop <==> x in s.workshop) && (x in s.workshop ==> r.workshop[x] == s.workshop[x])
      {
        assert ids[|ids| - 1] == id;
        assert x != id && x !in init;
        assert (x in r.workshop <==> x in m.workshop - {id}) && (x in m.workshop ==> r.workshop[x] == m.workshop[x]);
      }
      forall i | |s.journal| <= i < |r.journal|
        ensures FetchOf(r.journal[i], ids)
      {
        if i < |m.journal| {
          assert r.journal[i] == m.journal[i];
          assert FetchOf(m.journal[i], init);
        } else {
          assert r.journal[i] == Fetches(id, RetryCount(m, id, env))[i - |m.journal|];
        }
      }
    }
  }

  /** The loops run in ledger order: one more id appends that id's own run of fetches. */
  lemma RetryAllSnoc(s: State, ids: seq<string>, id: string, env: Env)
    requires Fair(env)
    ensures RetryAll(s, ids + [id], env).journal
      == RetryAll(s, ids, env).journal + Fetches(id, RetryCount(RetryAll(s, ids, env), id, env))
  {
    assert (ids + [id])[..|ids|] == ids;
    RetryOneSpec(RetryAll(s, ids, env), id, env);
  }

  /** After the loops every listed folder is non-empty: a later loop never empties an earlier folder. */
  lemma {:induction false} RetryAllReady(s: State, ids: seq<string>, env: Env)
    requires Fair(env)
    ensures forall i :: 0 <= i < |ids| ==> Ready(RetryAll(s, ids, env), ids[i])
  {
    if ids != [] {
      var init := ids[..|ids| - 1];
      var id := ids[|ids| - 1];
      var m := RetryAll(s, init, env);
      RetryAllReady(s, init, env);
      RetryOneSpec(m, id, env);
      var r := RetryAll(s, ids, env);
      forall i | 0 <= i < |ids|
        ensures Ready(r, ids[i])
      {
        if ids[i] != id {
          assert ids[i] == init[i];
          assert Ready(m, init[i]);
          assert ids[i] in m.workshop - {id};
          assert r.workshop[ids[i]] == m.workshop[ids[i]];
        }
      }
    }
  }

  /** `retry_failed_mods()`: nothing without a ledger; else every listed id, then the ledger is deleted. */
  ghost function RetryFailed(s: State, env: Env): State
    requires Fair(env)
  {
    match s.ledger
    case None => s
    case Some(text) =>
      var r := RetryAll(s, ReadLedger(text), env);
      r.(ledger := None, journal := r.journal + [DeleteLedger])
  }

  /**
   * Without a ledger nothing changes. With one, every id read from it has a
   * non-empty folder afterwards, the only runs of the tool are for those
   * ids, the ledger is deleted as the very last step, and the mods and keys
   * directories are untouched.
   */
  lemma RetryFailedSpec(s: State, env: Env)
    requires Fair(env)
    ensures s.ledger.None? ==> RetryFailed(s, env) == s
    ensures s.ledger.Some? ==>
      var r := RetryFailed(s, env);
      var ids := ReadLedger(s.ledger.value);
      && r.ledger.None?
      && (forall i :: 0 <= i < |ids| ==> Ready(r, ids[i]))
      && s.journal <= r.journal && r.journal[|r.journal| - 1] == DeleteLedger
      && (forall i :: |s.journal| <= i < |r.journal| - 1 ==> FetchOf(r.journal[i], ids))
      && r.mods == s.mods && r.keys == s.keys
  {
    if s.ledger.Some? {
      RetryAllFrame(s, ReadLedger(s.ledger.value), env);
      RetryAllReady(s, ReadLedger(s.ledger.value), env);
    }
  }
}
