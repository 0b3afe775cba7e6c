/**
 * `copy_keys`: dangling links in `KEYS_DIR` are removed, then every key
 * file offered by a mod in `A3Modnames` is linked into `KEYS_DIR`, the
 * first mod to offer a file name winning it.
 */
module Keys {
  import opened Base
  import opened FileSystem
  import Platform

  /** One key file a mod offers: the `@name`, the name of its key folder and the file's name. */
  datatype Claim = Claim(name: string, folder: string, key: string)

  /** The path a key link for the claim points to: `MODS_DIR/<name>/<folder>/<key>`. */
  function Source(c: Claim): KeyTarget {
    ModKey(c.name, c.folder, c.key)
  }

  /** The key files `copy_keys` meets for one name, in listing order; none when the mod or its key folder is missing. */
  function Offers(c: Content, name: string): seq<Claim> {
    match KeyFolder(c, name)
    case None => []
    case Some(found) => seq(|found.1|, j requires 0 <= j < |found.1| => Claim(name, found.0, found.1[j]))
  }

  /** The offers of several names in the order the two nested loops visit them. */
  function AllOffers(c: Content, names: seq<string>): seq<Claim> {
    if names == [] then [] else AllOffers(c, names[..|names| - 1]) + Offers(c, names[|names| - 1])
  }

  /** Every offered key file exists, so a link to it never dangles. */
  lemma {:induction false} AllOffersResolve(c: Content, names: seq<string>)
    ensures forall i :: 0 <= i < |AllOffers(c, names)| ==> Resolve(c, Source(AllOffers(c, names)[i])).Some?
  {
    if names != [] {
      var init := AllOffers(c, names[..|names| - 1]);
      var last := Offers(c, names[|names| - 1]);
      AllOffersResolve(c, names[..|names| - 1]);
      forall i | 0 <= i < |init + last|
        ensures Resolve(c, Source((init + last)[i])).Some?
      {
        if i >= |init| {
          assert (init + last)[i] == last[i - |init|];
        }
      }
    }
  }

  /** The offers of one more name follow those of the names before it, and all of them exist. */
  lemma AllOffersSnoc(c: Content, names: seq<string>, i: int)
    requires 0 <= i < |names|
    ensures AllOffers(c, names[..i + 1]) == AllOffers(c, names[..i]) + Offers(c, names[i])
    ensures AllResolve(c, AllOffers(c, names[..i]))
    ensures AllResolve(c, Offers(c, names[i]))
  {
    assert names[..i + 1][..i] == names[..i];
    var done := AllOffers(c, names[..i]);
    var offers := Offers(c, names[i]);
    AllOffersResolve(c, names[..i + 1]);
    AllOffersResolve(c, names[..i]);
    forall j | 0 <= j < |offers|
      ensures Resolve(c, Source(offers[j])).Some?
    {
      assert (done + offers)[|done| + j] == offers[j];
    }
  }

  /** The keys that a sequence of offers names. */
  function ClaimKeys(cs: seq<Claim>): seq<string> {
    seq(|cs|, i requires 0 <= i < |cs| => cs[i].key)
  }

  /** No offer before position `i` names the key offered at `i`. */
  predicate EarliestAt(cs: seq<Claim>, i: int)
    requires 0 <= i < |cs|
  {
    forall j :: 0 <= j < i ==> cs[j].key != cs[i].key
  }

  /** For each key file name, the first offer of it: the reference for "first writer wins". */
  function FirstClaims(cs: seq<Claim>): map<string, Claim> {
    if cs == [] then map[]
    else
      var m := FirstClaims(cs[..|cs| - 1]);
      var c := cs[|cs| - 1];
      if c.key in m then m else m[c.key := c]
  }

  /** Each offered key has a first offer: the earliest offer of that key. */
  lemma {:induction false} FirstClaimsSpec(cs: seq<Claim>)
    ensures forall k :: k in FirstClaims(cs) <==> k in ClaimKeys(cs)
    ensures forall k :: k in FirstClaims(cs) ==>
      exists i :: 0 <= i < |cs| && cs[i] == FirstClaims(cs)[k] && k == cs[i].key && EarliestAt(cs, i)
  {
    if cs != [] {
      var init := cs[..|cs| - 1];
      var c := cs[|cs| - 1];
      FirstClaimsSpec(init);
      assert ClaimKeys(cs) == ClaimKeys(init) + [c.key];
      var m := FirstClaims(cs);
      forall k | k in m
        ensures exists i :: 0 <= i < |cs| && cs[i] == m[k] && k == cs[i].key && EarliestAt(cs, i)
      {
        if k in FirstClaims(init) {
          var i :| 0 <= i < |init| && init[i] == FirstClaims(init)[k] && k == init[i].key && EarliestAt(init, i);
          assert cs[i] == init[i];
          assert forall j :: 0 <= j < i ==> cs[j] == init[j];
          assert EarliestAt(cs, i);
        } else {
          assert k == c.key && m[k] == c;
          assert k !in ClaimKeys(init);
          forall j | 0 <= j < |cs| - 1
            ensures cs[j].key != k
          {
            assert cs[j] == init[j] && ClaimKeys(init)[j] == init[j].key;
          }
          assert EarliestAt(cs, |cs| - 1);
        }
      }
    }
  }

  /** `existing_keys` as "first writer wins" would fill it: each key with the name of its first offer. */
  function FirstNames(cs: seq<Claim>): map<string, string> {
    map k | k in FirstClaims(cs) :: FirstClaims(cs)[k].name
  }

  /** One iteration of the first loop: the link at `KEYS_DIR/<key>` is removed when it dangles. */
  function PruneKey(s: State, key: string): State {
    if key in s.keys && Dangling(s.Contents(), s.keys[key])
    then s.(keys := s.keys - {key}, journal := s.journal + [UnlinkKey(key)])
    else s
  }

  /** The first loop, over the listing of `KEYS_DIR`. */
  function Prune(s: State, listing: seq<string>): State {
    if listing == [] then s else PruneKey(Prune(s, listing[..|listing| - 1]), listing[|listing| - 1])
  }

  /** One iteration of the first loop removes the listed key when its link dangles and changes nothing else. */
  lemma PruneKeyEffect(m: State, key: string)
    ensures PruneKey(m, key).keys ==
      map k | k in m.keys && !(k == key && Dangling(m.Contents(), m.keys[k])) :: m.keys[k]
    ensures PruneKey(m, key).(keys := m.keys, journal := m.journal) == m
  {
  }

  /** The first loop changes only `KEYS_DIR` and the journal. */
  lemma {:induction false} PruneFrame(s: State, listing: seq<string>)
    ensures Prune(s, listing).(keys := s.keys, journal := s.journal) == s
  {
    if listing != [] {
      PruneFrame(s, listing[..|listing| - 1]);
      PruneKeyEffect(Prune(s, listing[..|listing| - 1]), listing[|listing| - 1]);
    }
  }

  /** The first loop removes exactly the dangling links among the listed entries and keeps every other entry. */
  lemma {:induction false} PruneKeys(s: State, listing: seq<string>)
    ensures Prune(s, listing).keys ==
      map k | k in s.keys && !(k in listing && Dangling(s.Contents(), s.keys[k])) :: s.keys[k]
  {
    if listing != [] {
      var init := listing[..|listing| - 1];
      var key := listing[|listing| - 1];
      PruneKeys(s, init);
      PruneFrame(s, init);
      var m := Prune(s, init);
      PruneKeyEffect(m, key);
      assert m.Contents() == s.Contents();
      assert forall k :: k in init ==> k in listing;
      assert forall k :: k in listing ==> k in init || k == key;
    }
  }

  /**
   * The first loop removes exactly the dangling links among the listed
   * entries and keeps every other entry; with a complete listing nothing
   * dangles afterwards, and nothing changes when nothing dangled.
   */
  lemma PruneSpec(s: State, listing: seq<string>)
    ensures Prune(s, listing).keys ==
      map k | k in s.keys && !(k in listing && Dangling(s.Contents(), s.keys[k])) :: s.keys[k]
    ensures Prune(s, listing).(keys := s.keys, journal := s.journal) == s
    ensures (forall k :: k in s.keys ==> k in listing) ==> NoDangling(Prune(s, listing))
    ensures NoDangling(s) ==> Prune(s, listing) == s
  {
    PruneKeys(s, listing);
    PruneFrame(s, listing);
    var r := Prune(s, listing);
    assert r.Contents() == s.Contents();
    if NoDangling(s) {
      NoDanglingPrune(s, listing);
    }
  }

  /** With no dangling link the first loop changes nothing at all, the journal included. */
  lemma {:induction false} NoDanglingPrune(s: State, listing: seq<string>)
    requires NoDangling(s)
    ensures Prune(s, listing) == s
  {
    if listing != [] {
      NoDanglingPrune(s, listing[..|listing| - 1]);
    }
  }

  /**
   * A correct key link: `KEYS_DIR/<key>` is a link leading to the same file
   * as the offer (what `os.path.samefile` reports).
   */
  predicate Correct(s: State, key: string, c: Claim) {
    key in s.keys && s.keys[key].KeyLink?
    && Resolve(s.Contents(), s.keys[key].to).Some?
    && Resolve(s.Contents(), s.keys[key].to) == Resolve(s.Contents(), Source(c))
  }

  /** Every offer leads to an existing file. */
  predicate AllResolve(c: Content, cs: seq<Claim>) {
    forall i :: 0 <= i < |cs| ==> Resolve(c, Source(cs[i])).Some?
  }

  /**
   * Making the link for an offer after any old entry is gone: a symbolic
   * link; failing that, on Windows, a copy; a failed copy leaves the key
   * unclaimed, while a failed link elsewhere still claims it.
   */
  function Create(s: State, held: map<string, string>, c: Claim, env: Env): (State, map<string, string>) {
    if env.keySymlinkOk(c.name, c.key) then
      (s.(keys := s.keys[c.key := KeyLink(Source(c))], journal := s.journal + [LinkKey(c.key, Source(c))]),
       held[c.key := c.name])
    else if Platform.IsWindows(env.host) then
      if env.keyCopyOk(c.name, c.key) then
        (s.(keys := s.keys[c.key := KeyFile], journal := s.journal + [CopyKey(c.key, Source(c))]),
         held[c.key := c.name])
      else (s, held)
    else (s, held[c.key := c.name])
  }

  /**
   * One iteration of the inner loop of the second phase, with
   * `existing_keys` as `held`: a claimed key is skipped, a correct link
   * claimed as it is, anything else at the destination removed and the link
   * made anew.
   */
  function ClaimStep(s: State, held: map<string, string>, c: Claim, env: Env): (r: (State, map<string, string>))
    requires NoDangling(s) && Resolve(s.Contents(), Source(c)).Some?
    ensures NoDangling(r.0) && r.0.Contents() == s.Contents()
  {
    if c.key in held then (s, held)
    else if Correct(s, c.key, c) then (s, held[c.key := c.name])
    else
      var t := if c.key in s.keys then s.(keys := s.keys - {c.key}, journal := s.journal + [UnlinkKey(c.key)]) else s;
      CreateSafe(s, t, held, c, env);
      Create(t, held, c, env)
  }

  /** Removing the old entry and making the link leaves no dangling link and the mods untouched. */
  lemma CreateSafe(s: State, t: State, held: map<string, string>, c: Claim, env: Env)
    requires NoDangling(s) && Resolve(s.Contents(), Source(c)).Some?
    requires t == if c.key in s.keys then s.(keys := s.keys - {c.key}, journal := s.journal + [UnlinkKey(c.key)]) else s
    ensures NoDangling(Create(t, held, c, env).0) && Create(t, held, c, env).0.Contents() == s.Contents()
  {
    assert t.Contents() == s.Contents();
    var r := Create(t, held, c, env).0;
    assert r.Contents() == s.Contents();
    forall k | k in r.keys
      ensures !Dangling(r.Contents(), r.keys[k])
    {
      if k != c.key {
        assert r.keys[k] == s.keys[k];
      }
    }
  }

  /** The second phase over a sequence of offers. */
  function Pass(s: State, held: map<string, string>, cs: seq<Claim>, env: Env): (r: (State, map<string, string>))
    requires NoDangling(s) && AllResolve(s.Contents(), cs)
    ensures NoDangling(r.0) && r.0.Contents() == s.Contents()
  {
    if cs == [] then (s, held)
    else
      var m := Pass(s, held, cs[..|cs| - 1], env);
      ClaimStep(m.0, m.1, cs[|cs| - 1], env)
  }

  /** `copy_keys()`: the first loop over the listing of `KEYS_DIR`, then the second phase over `A3Modnames`. */
  function CopyKeys(s: State, listing: seq<string>, names: seq<string>, env: Env): (r: (State, map<string, string>))
    requires forall k :: k in s.keys ==> k in listing
  {
    var p := Prune(s, listing);
    PruneSpec(s, listing);
    AllOffersResolve(p.Contents(), names);
    Pass(p, map[], AllOffers(p.Contents(), names), env)
  }

  /** The second phase over a non-empty run of offers: the phase over all but the last, then one iteration. */
  lemma PassLast(s: State, held: map<string, string>, cs: seq<Claim>, env: Env)
    requires NoDangling(s) && AllResolve(s.Contents(), cs) && cs != []
    ensures AllResolve(s.Contents(), cs[..|cs| - 1])
    ensures Pass(s, held, cs, env) ==
      ClaimStep(Pass(s, held, cs[..|cs| - 1], env).0, Pass(s, held, cs[..|cs| - 1], env).1, cs[|cs| - 1], env)
  {
    var init := cs[..|cs| - 1];
    forall i | 0 <= i < |init|
      ensures Resolve(s.Contents(), Source(init[i])).Some?
    {
      assert init[i] == cs[i];
    }
  }

  /** A non-empty run of offers is all but its last, then its last. */
  lemma InitLast(cs: seq<Claim>)
    requires cs != []
    ensures cs == cs[..|cs| - 1] + [cs[|cs| - 1]]
  {
  }

  /** The second phase over one more offer is one more iteration. */
  lemma PassSnoc(s: State, held: map<string, string>, cs: seq<Claim>, j: int, env: Env)
    requires NoDangling(s) && AllResolve(s.Contents(), cs) && 0 <= j < |cs|
    ensures AllResolve(s.Contents(), cs[..j]) && AllResolve(s.Contents(), cs[..j + 1])
    ensures Pass(s, held, cs[..j + 1], env) == ClaimStep(Pass(s, held, cs[..j], env).0, Pass(s, held, cs[..j], env).1, cs[j], env)
  {
    var pre := cs[..j + 1];
    assert pre[..j] == cs[..j] && pre[j] == cs[j];
    forall i | 0 <= i < |pre|
      ensures Resolve(s.Contents(), Source(pre[i])).Some?
    {
      assert pre[i] == cs[i];
    }
  }

  /** The second phase over two runs of offers is the phase over the first run, then over the second. */
  lemma {:induction false} PassConcat(s: State, held: map<string, string>, a: seq<Claim>, b: seq<Claim>, env: Env)
    requires NoDangling(s) && AllResolve(s.Contents(), a) && AllResolve(s.Contents(), b)
    ensures AllResolve(s.Contents(), a + b)
    ensures Pass(s, held, a + b, env) == Pass(Pass(s, held, a, env).0, Pass(s, held, a, env).1, b, env)
    decreases |b|
  {
    assert AllResolve(s.Contents(), a + b) by {
      forall i | 0 <= i < |a + b|
        ensures Resolve(s.Contents(), Source((a + b)[i])).Some?
      {
        if i >= |a| {
          assert (a + b)[i] == b[i - |a|];
        }
      }
    }
    if b == [] {
      assert a + b == a;
    } else {
      var init := b[..|b| - 1];
      assert AllResolve(s.Contents(), init) by {
        forall i | 0 <= i < |init|
          ensures Resolve(s.Contents(), Source(init[i])).Some?
        {
          assert init[i] == b[i];
        }
      }
      PassConcat(s, held, a, init, env);
      assert (a + b)[..|a + b| - 1] == a + init;
      assert (a + b)[|a + b| - 1] == b[|b| - 1];
    }
  }

  /** Each offer either claims its key or, on Windows, fails to copy it. */
  predicate Sticks(env: Env, cs: seq<Claim>) {
    !Platform.IsWindows(env.host)
    || forall i :: 0 <= i < |cs| ==> env.keySymlinkOk(cs[i].name, cs[i].key) || env.keyCopyOk(cs[i].name, cs[i].key)
  }

  /** A journal entry that changes `KEYS_DIR` at one of the given keys. */
  predicate KeyOp(op: Op, keys: seq<string>) {
    (op.UnlinkKey? || op.LinkKey? || op.CopyKey?) && op.key in keys
  }

  /** One iteration touches only `KEYS_DIR/<c.key>` and journals only changes to it. */
  lemma ClaimStepFrame(s: State, held: map<string, string>, c: Claim, env: Env)
    requires NoDangling(s) && Resolve(s.Contents(), Source(c)).Some?
    ensures s.keys - {c.key} == ClaimStep(s, held, c, env).0.keys - {c.key}
    ensures s.journal <= ClaimStep(s, held, c, env).0.journal
    ensures forall i :: |s.journal| <= i < |ClaimStep(s, held, c, env).0.journal| ==>
      KeyOp(ClaimStep(s, held, c, env).0.journal[i], [c.key])
    ensures ClaimStep(s, held, c, env).0.(keys := s.keys, journal := s.journal) == s
  {
    if c.key !in held && !Correct(s, c.key, c) {
      var t := if c.key in s.keys then s.(keys := s.keys - {c.key}, journal := s.journal + [UnlinkKey(c.key)]) else s;
      assert ClaimStep(s, held, c, env) == Create(t, held, c, env);
      CreateFrame(t, held, c, env);
      assert t.keys - {c.key} == s.keys - {c.key};
    }
  }

  /** Making the link changes `KEYS_DIR` only at the offered key and journals at most that change. */
  lemma CreateFrame(t: State, held: map<string, string>, c: Claim, env: Env)
    ensures t.keys - {c.key} == Create(t, held, c, env).0.keys - {c.key}
    ensures Create(t, held, c, env).0.journal == t.journal
      || Create(t, held, c, env).0.journal == t.journal + [LinkKey(c.key, Source(c))]
      || Create(t, held, c, env).0.journal == t.journal + [CopyKey(c.key, Source(c))]
    ensures Create(t, held, c, env).0.(keys := t.keys, journal := t.journal) == t
  {
    var r := Create(t, held, c, env).0;
    if env.keySymlinkOk(c.name, c.key) {
      assert r.keys == t.keys[c.key := KeyLink(Source(c))];
    } else if Platform.IsWindows(env.host) && env.keyCopyOk(c.name, c.key) {
      assert r.keys == t.keys[c.key := KeyFile];
    } else {
      assert r == t;
    }
  }

  /**
   * The second phase only ever touches the keys that are offered: an
   * unoffered entry of `KEYS_DIR` keeps its presence and value, every
   * journal entry it adds (a removal among them) names an offered key, and
   * only `KEYS_DIR` and the journal change.
   */
  lemma PassFrame(s: State, held: map<string, string>, cs: seq<Claim>, env: Env)
    requires NoDangling(s) && AllResolve(s.Contents(), cs)
    ensures forall k :: k !in ClaimKeys(cs) ==>
      (k in Pass(s, held, cs, env).0.keys <==> k in s.keys)
      && (k in s.keys ==> Pass(s, held, cs, env).0.keys[k] == s.keys[k])
    ensures s.journal <= Pass(s, held, cs, env).0.journal
    ensures forall i :: |s.journal| <= i < |Pass(s, held, cs, env).0.journal| ==>
      KeyOp(Pass(s, held, cs, env).0.journal[i], ClaimKeys(cs))
    ensures Pass(s, held, cs, env).0.(keys := s.keys, journal := s.journal) == s
  {
    PassKeysFrame(s, held, cs, env);
    PassJournal(s, held, cs, env);
  }

  /** Unoffered entries of `KEYS_DIR` keep their presence and value through the second phase. */
  lemma {:induction false} PassKeysFrame(s: State, held: map<string, string>, cs: seq<Claim>, env: Env)
    requires NoDangling(s) && AllResolve(s.Contents(), cs)
    ensures forall k :: k !in ClaimKeys(cs) ==>
      (k in Pass(s, held, cs, env).0.keys <==> k in s.keys)
      && (k in s.keys ==> Pass(s, held, cs, env).0.keys[k] == s.keys[k])
  {
    if cs != [] {
      var init := cs[..|cs| - 1];
      var c := cs[|cs| - 1];
      PassLast(s, held, cs, env);
      PassKeysFrame(s, held, init, env);
      assert ClaimKeys(cs) == ClaimKeys(init) + [c.key];
      var m := Pass(s, held, init, env);
      ClaimStepFrame(m.0, m.1, c, env);
      var r := Pass(s, held, cs, env).0;
      forall k | k !in ClaimKeys(cs)
        ensures (k in r.keys <==> k in s.keys) && (k in s.keys ==> r.keys[k] == s.keys[k])
      {
        assert k != c.key && k !in ClaimKeys(init);
        assert k in r.keys <==> k in r.keys - {c.key};
        assert k in m.0.keys <==> k in m.0.keys - {c.key};
      }
    }
  }

  /** The second phase only appends journal entries naming offered keys, and changes nothing but `KEYS_DIR` and the journal. */
  lemma {:induction false} PassJournal(s: State, held: map<string, string>, cs: seq<Claim>, env: Env)
    requires NoDangling(s) && AllResolve(s.Contents(), cs)
    ensures s.journal <= Pass(s, held, cs, env).0.journal
    ensures forall i :: |s.journal| <= i < |Pass(s, held, cs, env).0.journal| ==>
      KeyOp(Pass(s, held, cs, env).0.journal[i], ClaimKeys(cs))
    ensures Pass(s, held, cs, env).0.(keys := s.keys, journal := s.journal) == s
  {
    if cs != [] {
      var init := cs[..|cs| - 1];
      var c := cs[|cs| - 1];
      PassLast(s, held, cs, env);
      PassJournal(s, held, init, env);
      assert ClaimKeys(cs) == ClaimKeys(init) + [c.key];
      var m := Pass(s, held, init, env);
      ClaimStepFrame(m.0, m.1, c, env);
      KeyOpsExtend(s.journal, m.0.journal, ClaimStep(m.0, m.1, c, env).0.journal, ClaimKeys(init), c.key);
    }
  }

  /**
   * Journal entries naming earlier keys, followed by entries naming one
   * more key, all name a key of the longer list.
   */
  lemma KeyOpsExtend(base: seq<Op>, mid: seq<Op>, fin: seq<Op>, keys: seq<string>, key: string)
    requires base <= mid <= fin
    requires forall i :: |base| <= i < |mid| ==> KeyOp(mid[i], keys)
    requires forall i :: |mid| <= i < |fin| ==> KeyOp(fin[i], [key])
    ensures forall i :: |base| <= i < |fin| ==> KeyOp(fin[i], keys + [key])
  {
    forall i | |base| <= i < |fin|
      ensures KeyOp(fin[i], keys + [key])
    {
      if i < |mid| {
        assert fin[i] == mid[i];
      }
    }
  }

  /** An existing link to the same file as the offer is kept as it is and the key claimed for the offerer. */
  lemma CorrectKept(s: State, held: map<string, string>, c: Claim, env: Env)
    requires NoDangling(s) && Resolve(s.Contents(), Source(c)).Some?
    requires c.key !in held && Correct(s, c.key, c)
    ensures ClaimStep(s, held, c, env) == (s, held[c.key := c.name])
  {
  }

  /** The first offers after one more offer: a key seen for the first time goes to its offerer. */
  lemma FirstClaimsSnoc(init: seq<Claim>, c: Claim)
    ensures FirstClaims(init + [c]) == if c.key in FirstClaims(init) then FirstClaims(init) else FirstClaims(init)[c.key := c]
    ensures FirstNames(init + [c]) == if c.key in FirstNames(init) then FirstNames(init) else FirstNames(init)[c.key := c.name]
  {
    assert (init + [c])[..|init|] == init;
  }

  /** One iteration adds the offer's key to `existing_keys` unless it is held or a Windows copy fails. */
  lemma ClaimStepHeld(s: State, held: map<string, string>, c: Claim, env: Env)
    requires NoDangling(s) && Resolve(s.Contents(), Source(c)).Some?
    requires !Platform.IsWindows(env.host) || env.keySymlinkOk(c.name, c.key) || env.keyCopyOk(c.name, c.key)
    ensures ClaimStep(s, held, c, env).1 == if c.key in held then held else held[c.key := c.name]
  {
  }

  /**
   * A failed link on a host other than Windows creates nothing, yet claims
   * the key: the destination is gone (any old entry was removed) and the
   * offer's mod now holds the key.
   */
  lemma FailedLinkClaims(s: State, held: map<string, string>, c: Claim, env: Env)
    requires NoDangling(s) && Resolve(s.Contents(), Source(c)).Some?
    requires !Platform.IsWindows(env.host) && !env.keySymlinkOk(c.name, c.key)
    requires c.key !in held && !Correct(s, c.key, c)
    ensures c.key !in ClaimStep(s, held, c, env).0.keys
    ensures ClaimStep(s, held, c, env).0.keys == s.keys - {c.key}
    ensures ClaimStep(s, held, c, env).1 == held[c.key := c.name]
  {
  }

  /** A key already claimed is skipped: a later offer of it changes nothing. */
  lemma HeldSkipped(s: State, held: map<string, string>, c: Claim, env: Env)
    requires NoDangling(s) && Resolve(s.Contents(), Source(c)).Some?
    requires c.key in held
    ensures ClaimStep(s, held, c, env) == (s, held)
  {
  }

  /**
   * After a failed link elsewhere than on Windows, a later offer of the same
   * key from another mod is skipped, so the key stays claimed and absent.
   */
  lemma FailedLinkStaysAbsent(s: State, held: map<string, string>, c: Claim, d: Claim, env: Env)
    requires NoDangling(s) && Resolve(s.Contents(), Source(c)).Some? && Resolve(s.Contents(), Source(d)).Some?
    requires !Platform.IsWindows(env.host) && !env.keySymlinkOk(c.name, c.key)
    requires c.key !in held && !Correct(s, c.key, c) && d.key == c.key
    ensures var m := ClaimStep(s, held, c, env);
      var r := ClaimStep(m.0, m.1, d, env);
      c.key !in r.0.keys && r.1 == held[c.key := c.name]
  {
    FailedLinkClaims(s, held, c, env);
    var m := ClaimStep(s, held, c, env);
    assert m.0.Contents() == s.Contents();
    HeldSkipped(m.0, m.1, d, env);
  }

  /**
   * First writer wins: when every offer on Windows can at least be copied,
   * `existing_keys` ends up mapping each offered key to the name of its
   * earliest offer.
   */
  lemma {:induction false} PassClaims(s: State, cs: seq<Claim>, env: Env)
    requires NoDangling(s) && AllResolve(s.Contents(), cs) && Sticks(env, cs)
    ensures Pass(s, map[], cs, env).1 == FirstNames(cs)
  {
    if cs != [] {
      var init := cs[..|cs| - 1];
      var c := cs[|cs| - 1];
      SticksLast(env, cs);
      PassLast(s, map[], cs, env);
      PassClaims(s, init, env);
      InitLast(cs);
      ClaimsStep(Pass(s, map[], init, env).0, init, c, env);
    }
  }

  /** Offers that stick: so do all but the last, and so does the last. */
  lemma SticksLast(env: Env, cs: seq<Claim>)
    requires Sticks(env, cs) && cs != []
    ensures Sticks(env, cs[..|cs| - 1])
    ensures var c := cs[|cs| - 1];
      !Platform.IsWindows(env.host) || env.keySymlinkOk(c.name, c.key) || env.keyCopyOk(c.name, c.key)
  {
    var init := cs[..|cs| - 1];
    if Platform.IsWindows(env.host) {
      forall i | 0 <= i < |init|
        ensures env.keySymlinkOk(init[i].name, init[i].key) || env.keyCopyOk(init[i].name, init[i].key)
      {
        assert init[i] == cs[i];
      }
    }
  }

  /** An offer that sticks extends the first-writer map by one more offer. */
  lemma ClaimsStep(m: State, init: seq<Claim>, c: Claim, env: Env)
    requires NoDangling(m) && Resolve(m.Contents(), Source(c)).Some?
    requires !Platform.IsWindows(env.host) || env.keySymlinkOk(c.name, c.key) || env.keyCopyOk(c.name, c.key)
    ensures ClaimStep(m, FirstNames(init), c, env).1 == FirstNames(init + [c])
  {
    ClaimStepHeld(m, FirstNames(init), c, env);
    FirstClaimsSnoc(init, c);
  }

  /** Every offered key holds a correct link to its first offer. */
  predicate Settled(s: State, cs: seq<Claim>) {
    forall k :: k in FirstClaims(cs) ==> Correct(s, k, FirstClaims(cs)[k])
  }

  /** Every offer can be linked. */
  predicate AllLinksOk(env: Env, cs: seq<Claim>) {
    forall i :: 0 <= i < |cs| ==> env.keySymlinkOk(cs[i].name, cs[i].key)
  }

  /** One iteration whose link can be made extends settledness to one more offer. */
  lemma SettleStep(m: State, held: map<string, string>, init: seq<Claim>, c: Claim, cs: seq<Claim>, env: Env)
    requires NoDangling(m) && Resolve(m.Contents(), Source(c)).Some?
    requires Settled(m, init) && env.keySymlinkOk(c.name, c.key)
    requires held == FirstNames(init) && cs == init + [c]
    ensures Settled(ClaimStep(m, held, c, env).0, cs)
  {
    var r := ClaimStep(m, held, c, env).0;
    FirstClaimsSnoc(init, c);
    var fc := FirstClaims(cs);
    forall k | k in fc
      ensures Correct(r, k, fc[k])
    {
      if k != c.key {
        assert fc[k] == FirstClaims(init)[k];
        assert Correct(m, k, fc[k]);
        assert r.keys[k] == m.keys[k];
      }
    }
  }

  /** When every link can be made, the second phase leaves every offered key correctly linked to its first offer. */
  lemma {:induction false} PassSettles(s: State, cs: seq<Claim>, env: Env)
    requires NoDangling(s) && AllResolve(s.Contents(), cs) && AllLinksOk(env, cs)
    ensures Settled(Pass(s, map[], cs, env).0, cs)
    ensures Pass(s, map[], cs, env).1 == FirstNames(cs)
  {
    LinksOkSticks(env, cs);
    PassClaims(s, cs, env);
    if cs != [] {
      var init := cs[..|cs| - 1];
      var c := cs[|cs| - 1];
      LinksOkLast(env, cs);
      PassLast(s, map[], cs, env);
      PassSettles(s, init, env);
      InitLast(cs);
      var m := Pass(s, map[], init, env);
      SettleStep(m.0, m.1, init, c, cs, env);
    }
  }

  /** Offers that can all be linked stick. */
  lemma LinksOkSticks(env: Env, cs: seq<Claim>)
    requires AllLinksOk(env, cs)
    ensures Sticks(env, cs)
  {
  }

  /** When every offer can be linked, so can all but the last, and so can the last. */
  lemma LinksOkLast(env: Env, cs: seq<Claim>)
    requires AllLinksOk(env, cs) && cs != []
    ensures AllLinksOk(env, cs[..|cs| - 1])
    ensures env.keySymlinkOk(cs[|cs| - 1].name, cs[|cs| - 1].key)
  {
    var init := cs[..|cs| - 1];
    forall i | 0 <= i < |init|
      ensures env.keySymlinkOk(init[i].name, init[i].key)
    {
      assert init[i] == cs[i];
    }
  }

  /** A settled `KEYS_DIR` passes through the second phase unchanged. */
  lemma {:induction false} PassOnSettled(s: State, cs: seq<Claim>, env: Env)
    requires NoDangling(s) && AllResolve(s.Contents(), cs) && Settled(s, cs)
    ensures Pass(s, map[], cs, env).0 == s
    ensures Pass(s, map[], cs, env).1 == FirstNames(cs)
  {
    if cs != [] {
      var init := cs[..|cs| - 1];
      var c := cs[|cs| - 1];
      assert Settled(s, init) by {
        forall k | k in FirstClaims(init)
          ensures Correct(s, k, FirstClaims(init)[k])
        {
          assert FirstClaims(cs)[k] == FirstClaims(init)[k];
        }
      }
      PassLast(s, map[], cs, env);
      PassOnSettled(s, init, env);
      InitLast(cs);
      FirstClaimsSnoc(init, c);
      if c.key !in FirstClaims(init) {
        assert FirstClaims(cs)[c.key] == c;
        assert Correct(s, c.key, c);
      }
    }
  }

  /**
   * When every link can be made, `copy_keys()` run twice with unchanged
   * mods leaves `KEYS_DIR`, and everything else, as the first run left it.
   */
  lemma CopyKeysIdempotent(s: State, listing: seq<string>, listing2: seq<string>, names: seq<string>, env: Env)
    requires forall k :: k in s.keys ==> k in listing
    requires AllLinksOk(env, AllOffers(s.Contents(), names))
    requires forall k :: k in CopyKeys(s, listing, names, env).0.keys ==> k in listing2
    ensures CopyKeys(CopyKeys(s, listing, names, env).0, listing2, names, env).0 == CopyKeys(s, listing, names, env).0
  {
    var p := Prune(s, listing);
    PruneSpec(s, listing);
    var cs := AllOffers(p.Contents(), names);
    AllOffersResolve(p.Contents(), names);
    assert p.Contents() == s.Contents();
    PassSettles(p, cs, env);
    var r := CopyKeys(s, listing, names, env).0;
    assert r == Pass(p, map[], cs, env).0;
    PruneSpec(r, listing2);
    assert Prune(r, listing2) == r;
    PassOnSettled(r, cs, env);
  }
}
