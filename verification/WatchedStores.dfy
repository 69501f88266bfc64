/** Watching a backend: what a subscriber's replica says about the store behind
    it, and which changes of a secret a poll can miss. */
module WatchedStores {
  import opened Outcomes
  import opened Text
  import opened Keys
  import opened Secrets
  import opened Sorting
  import opened Streams
  import opened Diffs
  import opened Listings
  import opened KeyEncoding
  import opened GcpNames
  import opened Gathering
  import SecretManager
  import GcpStore
  import KeyVault
  import AzureStore
  import AzureListing
  import Pipelines

  // ---- at rest the replica is what Get can read --------------------------

  // The table holds the version of every key that can be read under ns and
  // may be seen, and nothing else.
  ghost predicate Mirrors(view: Table, get: Key -> Option<SecretMeta>, ns: Namespace, keep: Key -> bool) {
    forall k: Key ::
      && (k.String() in view <==> ns.Encloses(k.ns) && keep(k) && get(k).Some?)
      && (k.String() in view ==> view[k.String()].version == get(k).value.version)
  }

  lemma ListedKey(get: Key -> Option<SecretMeta>, ns: Namespace, out: seq<SecretMeta>, k: Key)
    requires Agrees(get, ns, out) && forall j: Key :: get(j).Some? ==> get(j).value.key == j
    ensures k.String() in Latest(out) <==> ns.Encloses(k.ns) && get(k).Some?
    ensures k.String() in Latest(out) ==> get(k) == Some(Latest(out)[k.String()])
  {
    if k.String() in Latest(out) {
      LatestIsListed(out, k.String());
      StringInjective(Latest(out)[k.String()].key, k);
    }
    if ns.Encloses(k.ns) && get(k).Some? {
      assert get(k).value in out && NameOf(get(k).value) in Names(out);
    }
  }

  lemma ListedMirrors(get: Key -> Option<SecretMeta>, ns: Namespace, out: seq<SecretMeta>, keep: Key -> bool,
                      view: Table)
    requires Agrees(get, ns, out) && forall j: Key :: get(j).Some? ==> get(j).value.key == j
    requires Versions(view) == Versions(Latest(KeepMetas(out, keep)))
    ensures Mirrors(view, get, ns, keep)
  {
    var kept := Restrict(Latest(out), keep);
    LatestOfKept(out, keep);
    forall k: Key
      ensures k.String() in view <==> ns.Encloses(k.ns) && keep(k) && get(k).Some?
      ensures k.String() in view ==> view[k.String()].version == get(k).value.version
    {
      SameVersions(view, kept, k.String());
      ListedKey(get, ns, out, k);
    }
  }

  // In every interleaving, whenever nothing is in flight and the last good
  // poll listed the store as Get reads it, the subscriber's replica mirrors
  // what Get can read.
  lemma {:induction false} RestingReplicaMirrors(snapshot: seq<SecretMeta>, steps: seq<Pipelines.Step>,
                                                 keep: Key -> bool, s: Pipelines.State,
                                                 get: Key -> Option<SecretMeta>, ns: Namespace)
    requires Pipelines.Runs(Pipelines.Init(snapshot), steps, keep, s) && Pipelines.Quiet(s)
    requires Agrees(get, ns, LastGood(snapshot, s.polls))
    requires forall j: Key :: get(j).Some? ==> get(j).value.key == j
    ensures Mirrors(Replay(s.got), get, ns, keep)
  {
    Pipelines.QuietReplica(snapshot, steps, keep, s);
    ListedMirrors(get, ns, LastGood(snapshot, s.polls), keep, Replay(s.got));
  }

  // So it does over Secret Manager, after any operations.
  lemma {:induction false} GcpReplicaMirrors(now: int, ops: seq<GcpStore.Op>, ns: Namespace,
                                             snapshot: seq<SecretMeta>, steps: seq<Pipelines.Step>,
                                             keep: Key -> bool, s: Pipelines.State)
    requires Pipelines.Runs(Pipelines.Init(snapshot), steps, keep, s) && Pipelines.Quiet(s)
    requires forall op :: op in ops ==> GcpStore.Possible(op)
    requires !GcpStore.RunOps(now, ops).down
    requires GcpStore.IsListing(GcpStore.RunOps(now, ops), ns, LastGood(snapshot, s.polls))
    ensures Mirrors(Replay(s.got), GcpStore.Reads(GcpStore.RunOps(now, ops)), ns, keep)
  {
    GcpStore.EveryListingAgrees(now, ops, ns, LastGood(snapshot, s.polls));
    RestingReplicaMirrors(snapshot, steps, keep, s, GcpStore.Reads(GcpStore.RunOps(now, ops)), ns);
  }

  // And over Key Vault, as long as no listed name is foreign or empty.
  lemma {:induction false} AzureReplicaMirrors(v: KeyVault.Vault, pages: seq<AzureListing.Page>, ns: Namespace,
                                               snapshot: seq<SecretMeta>, steps: seq<Pipelines.Step>,
                                               keep: Key -> bool, s: Pipelines.State)
    requires Pipelines.Runs(Pipelines.Init(snapshot), steps, keep, s) && Pipelines.Quiet(s)
    requires v.failure.None? && AzureListing.Clean(v, ns) && AzureListing.ListsOnce(v, Flatten(pages))
    requires AzureListing.Collected(ns, pages).Ok? && SortedBy(LastGood(snapshot, s.polls), NameOf)
    requires multiset(LastGood(snapshot, s.polls)) == multiset(AzureListing.Collected(ns, pages).value)
    ensures Mirrors(Replay(s.got), AzureListing.Reads(v), ns, keep)
  {
    AzureListing.ListAgreesIffClean(v, ns, pages, LastGood(snapshot, s.polls));
    RestingReplicaMirrors(snapshot, steps, keep, s, AzureListing.Reads(v), ns);
  }

  // ---- which changes a poll of Secret Manager misses ---------------------

  // What Get read before some operations, and what it reads after them.
  ghost predicate ReadTwice(now: int, before: seq<GcpStore.Op>, after: seq<GcpStore.Op>, key: Key,
                            m: SecretMeta, n: SecretMeta) {
    && (forall op :: op in before + after ==> GcpStore.Possible(op))
    && GcpStore.Reads(GcpStore.RunOps(now, before))(key) == Some(m)
    && GcpStore.Reads(GcpStore.RunOps(now, before + after))(key) == Some(n)
  }

  lemma ReadsCountHistory(now: int, ops: seq<GcpStore.Op>, key: Key, m: SecretMeta)
    requires forall op :: op in ops ==> GcpStore.Possible(op)
    requires GcpStore.Reads(GcpStore.RunOps(now, ops))(key) == Some(m)
    ensures m.key == key && m.version == Decimal(|GcpStore.History(now, ops, key)|)
  {
    GcpStore.GetReadsHistory(now, ops, key);
  }

  // A key that two polls find readable is reported as Updated exactly when
  // the number of values put since its last Delete is not the same: a version
  // is only a number, and starts again at 1.
  lemma {:induction false} ReportedIffRecounted(now: int, before: seq<GcpStore.Op>, after: seq<GcpStore.Op>, key: Key,
                                                m: SecretMeta, n: SecretMeta, seen: Table, ms: seq<SecretMeta>)
    requires ReadTwice(now, before, after, key, m, n)
    requires NameOf(m) in seen && seen[NameOf(m)].version == m.version && Distinct(ms) && n in ms
    ensures Updated(n) in DiffEvents(seen, ms)
            <==> |GcpStore.History(now, before, key)| != |GcpStore.History(now, before + after, key)|
  {
    assert forall op :: op in before ==> op in before + after;
    ReadsCountHistory(now, before, key, m);
    ReadsCountHistory(now, before + after, key, n);
    ReportedIffChanged(seen, ms, n);
    var i, j := |GcpStore.History(now, before, key)|, |GcpStore.History(now, before + after, key)|;
    if m.version == n.version {
      DecimalInjective(i, j);
    }
  }

  lemma {:induction false} HistoryGrows(now: int, before: seq<GcpStore.Op>, after: seq<GcpStore.Op>, key: Key)
    requires GcpStore.Delete(key) !in after
    ensures GcpStore.History(now, before, key) <= GcpStore.History(now, before + after, key)
  {
    if after == [] {
      assert before + after == before;
    } else {
      var front, op := after[..|after| - 1], after[|after| - 1];
      assert after == front + [op] && op in after;
      HistoryGrows(now, before, front, key);
      assert (before + after)[..|before + after| - 1] == before + front;
    }
  }

  // Unless the key was deleted in between, every change of its history is
  // reported.
  lemma {:induction false} NothingMissedWithoutDelete(now: int, before: seq<GcpStore.Op>, after: seq<GcpStore.Op>,
                                                      key: Key, m: SecretMeta, n: SecretMeta,
                                                      seen: Table, ms: seq<SecretMeta>)
    requires ReadTwice(now, before, after, key, m, n) && GcpStore.Delete(key) !in after
    requires NameOf(m) in seen && seen[NameOf(m)].version == m.version && Distinct(ms) && n in ms
    ensures Updated(n) in DiffEvents(seen, ms)
            <==> GcpStore.History(now, before, key) != GcpStore.History(now, before + after, key)
  {
    ReportedIffRecounted(now, before, after, key, m, n, seen, ms);
    HistoryGrows(now, before, after, key);
  }

  // Deleted and put again between two polls, a secret changes unnoticed.
  lemma ReplacedUnnoticed(now: int, key: Key, v: SecretManager.Bytes, w: SecretManager.Bytes)
    returns (m: SecretMeta, n: SecretMeta)
    requires Encode(GCP, MAX_ID_LEN, key).Ok? && v != [] && w != []
    ensures ReadTwice(now, [GcpStore.Put(key, v)], [GcpStore.Delete(key), GcpStore.Put(key, w)], key, m, n)
    ensures GcpStore.History(now, [GcpStore.Put(key, v)], key) == [v]
    ensures GcpStore.History(now, [GcpStore.Put(key, v)] + [GcpStore.Delete(key), GcpStore.Put(key, w)], key) == [w]
    ensures DiffEvents(Latest([m]), [n]) == []
  {
    var put, drop, again := GcpStore.Put(key, v), GcpStore.Delete(key), GcpStore.Put(key, w);
    var ops := [put] + [drop, again];
    assert ops[..2] == [put, drop] && [put, drop][..1] == [put] && [put][..0] == [];
    assert GcpStore.RunOps(now, []) == SecretManager.Project(map[], now, false);
    assert [] + [v] == [v] && [] + [w] == [w];
    assert GcpStore.RunOps(now, [put, drop]).secrets == map[];
    assert GcpStore.RunOps(now, ops) == GcpStore.Apply(GcpStore.RunOps(now, [put, drop]), again);
    m := GcpStore.Reads(GcpStore.RunOps(now, [put]))(key).value;
    n := GcpStore.Reads(GcpStore.RunOps(now, ops))(key).value;
    assert ReadTwice(now, [put], [drop, again], key, m, n);
    ReadsCountHistory(now, [put], key, m);
    ReadsCountHistory(now, ops, key, n);
    SingleDiff(m, n);
  }

  lemma SingleDiff(m: SecretMeta, n: SecretMeta)
    requires m.key == n.key && m.version == n.version
    ensures DiffEvents(Latest([m]), [n]) == []
  {
    assert [] + [m] == [m] && [] + [n] == [n];
    LatestExtends([], m);
    UpsertsExtend(Latest([m]), [], n);
    NothingGone(Latest([m]), [n]);
  }
}
