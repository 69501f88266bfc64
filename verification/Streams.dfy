/** What a watch stream says: the events polling sends for a run of snapshots,
    what a subscriber makes of them, and the shape of every stream. */
module Streams {
  import opened Keys
  import opened Secrets
  import opened Sorting
  import Text

  // ---- the events of one poll --------------------------------------------

  predicate Unchanged(seen: Table, m: SecretMeta) {
    NameOf(m) in seen && seen[NameOf(m)].version == m.version
  }

  function Upsert(seen: Table, m: SecretMeta): Event {
    if NameOf(m) in seen then Updated(m) else Added(m)
  }

  // Additions and updates, in snapshot order, each judged against what has
  // been sent so far.
  function Upserted(seen: Table, ms: seq<SecretMeta>): Table {
    if ms == [] then seen
    else
      var t, m := Upserted(seen, ms[..|ms| - 1]), ms[|ms| - 1];
      if Unchanged(t, m) then t else t[NameOf(m) := m]
  }

  function UpsertEvents(seen: Table, ms: seq<SecretMeta>): seq<Event> {
    if ms == [] then []
    else
      var t, m := Upserted(seen, ms[..|ms| - 1]), ms[|ms| - 1];
      UpsertEvents(seen, ms[..|ms| - 1]) + if Unchanged(t, m) then [] else [Upsert(t, m)]
  }

  lemma UpsertsExtend(seen: Table, front: seq<SecretMeta>, m: SecretMeta)
    ensures var t := Upserted(seen, front);
            && Upserted(seen, front + [m]) == (if Unchanged(t, m) then t else t[NameOf(m) := m])
            && UpsertEvents(seen, front + [m])
               == UpsertEvents(seen, front) + (if Unchanged(t, m) then [] else [Upsert(t, m)])
  {
    assert (front + [m])[..|front|] == front;
  }

  function Deletions(t: Table, ks: seq<string>): seq<Event>
    requires forall k :: k in ks ==> k in t
  {
    if ks == [] then [] else Deletions(t, ks[..|ks| - 1]) + [Deleted(t[ks[|ks| - 1]])]
  }

  lemma DeletionsExtend(t: Table, front: seq<string>, k: string)
    requires k in t && forall k' :: k' in front ==> k' in t
    ensures Deletions(t, front + [k]) == Deletions(t, front) + [Deleted(t[k])]
  {
    assert (front + [k])[..|front|] == front;
  }

  // Known keys the snapshot no longer has.
  ghost function Gone(seen: Table, ms: seq<SecretMeta>): set<string> {
    seen.Keys - Names(ms)
  }

  ghost function DiffEvents(seen: Table, ms: seq<SecretMeta>): seq<Event> {
    var t := Upserted(seen, ms);
    UpsertEvents(seen, ms) + DeletionEvents(t, Gone(t, ms))
  }

  ghost function DeletionEvents(t: Table, gone: set<string>): seq<Event>
    requires gone <= t.Keys
  {
    var ks := InOrder(gone);
    assert forall k :: k in ks ==> k in Members(ks);
    Deletions(t, ks)
  }

  ghost function DiffTable(seen: Table, ms: seq<SecretMeta>): Table {
    var t := Upserted(seen, ms);
    t - Gone(t, ms)
  }

  // ---- the events of a run -----------------------------------------------

  datatype Poll = Listed(metas: seq<SecretMeta>) | Failed

  function OpeningEvents(snapshot: seq<SecretMeta>): seq<Event> {
    seq(|snapshot|, i requires 0 <= i < |snapshot| => Added(snapshot[i])) + [InSync]
  }

  ghost function RunTable(snapshot: seq<SecretMeta>, polls: seq<Poll>): Table {
    if polls == [] then Latest(snapshot)
    else
      var t := RunTable(snapshot, polls[..|polls| - 1]);
      match polls[|polls| - 1]
      case Failed => t
      case Listed(ms) => DiffTable(t, ms)
  }

  ghost function RunEvents(snapshot: seq<SecretMeta>, polls: seq<Poll>): seq<Event> {
    if polls == [] then OpeningEvents(snapshot)
    else
      var front := polls[..|polls| - 1];
      RunEvents(snapshot, front) +
      match polls[|polls| - 1]
      case Failed => []
      case Listed(ms) => DiffEvents(RunTable(snapshot, front), ms)
  }

  function LastGood(snapshot: seq<SecretMeta>, polls: seq<Poll>): seq<SecretMeta> {
    if polls == [] then snapshot
    else
      match polls[|polls| - 1]
      case Failed => LastGood(snapshot, polls[..|polls| - 1])
      case Listed(ms) => ms
  }

  lemma RunExtends(snapshot: seq<SecretMeta>, polls: seq<Poll>, poll: Poll)
    ensures var t := RunTable(snapshot, polls);
            && RunTable(snapshot, polls + [poll]) == (if poll.Failed? then t else DiffTable(t, poll.metas))
            && RunEvents(snapshot, polls + [poll])
               == RunEvents(snapshot, polls) + (if poll.Failed? then [] else DiffEvents(t, poll.metas))
  {
    assert (polls + [poll])[..|polls|] == polls;
  }

  lemma {:induction false} RunGrows(snapshot: seq<SecretMeta>, polls: seq<Poll>, n: nat)
    requires n <= |polls|
    ensures RunEvents(snapshot, polls[..n]) <= RunEvents(snapshot, polls)
  {
    if n < |polls| {
      var front := polls[..|polls| - 1];
      RunGrows(snapshot, front, n);
      assert front[..n] == polls[..n];
    } else {
      assert polls[..n] == polls;
    }
  }

  // ---- what a subscriber makes of a stream -------------------------------

  // The subscriber's replica.
  function Replay(evs: seq<Event>): Table {
    if evs == [] then map[] else Replayed(Replay(evs[..|evs| - 1]), evs[|evs| - 1])
  }

  function Replayed(view: Table, ev: Event): Table {
    match ev
    case InSync => view
    case Added(m) => view[NameOf(m) := m]
    case Updated(m) => view[NameOf(m) := m]
    case Deleted(m) => view - {NameOf(m)}
  }

  // Whether an event may follow `prior`: before InSync only Added; after it,
  // Added for an absent key, Updated for a present key at another version,
  // Deleted for a present key with the metadata last sent for it.
  ghost predicate Fits(prior: seq<Event>, ev: Event) {
    var live, view := InSync in prior, Replay(prior);
    match ev
    case InSync => !live
    case Added(m) => live ==> NameOf(m) !in view
    case Updated(m) => live && NameOf(m) in view && view[NameOf(m)].version != m.version
    case Deleted(m) => live && NameOf(m) in view && view[NameOf(m)] == m
  }

  ghost predicate WellShaped(evs: seq<Event>) {
    forall i :: 0 <= i < |evs| ==> Fits(evs[..i], evs[i])
  }

  lemma {:induction false} ReplayIndexed(evs: seq<Event>)
    ensures Indexed(Replay(evs))
  {
    if evs != [] {
      ReplayIndexed(evs[..|evs| - 1]);
    }
  }

  lemma WellShapedExtends(evs: seq<Event>, ev: Event)
    requires WellShaped(evs) && Fits(evs, ev)
    ensures WellShaped(evs + [ev]) && Replay(evs + [ev]) == Replayed(Replay(evs), ev)
  {
    var more := evs + [ev];
    assert more[..|evs|] == evs;
    forall i | 0 <= i < |more| ensures Fits(more[..i], more[i]) {
      if i < |evs| {
        assert more[..i] == evs[..i] && more[i] == evs[i];
      }
    }
  }

  lemma WellShapedPrefix(evs: seq<Event>, more: seq<Event>)
    requires WellShaped(more) && evs <= more
    ensures WellShaped(evs)
  {
    forall i | 0 <= i < |evs| ensures Fits(evs[..i], evs[i]) {
      assert Fits(more[..i], more[i]);
      assert evs[..i] == more[..i];
    }
  }

  // A well-shaped stream announces InSync at most once.
  lemma InSyncOnce(evs: seq<Event>, i: nat, j: nat)
    requires WellShaped(evs) && i < j < |evs| && evs[i] == InSync
    ensures evs[j] != InSync
  {
    assert evs[..j][i] == InSync;
    assert Fits(evs[..j], evs[j]);
  }

  // ---- every run is well shaped and replays to the poller's table --------

  lemma {:induction false} OpeningReplays(snapshot: seq<SecretMeta>, n: nat)
    requires n <= |snapshot|
    ensures var evs := OpeningEvents(snapshot)[..n];
            WellShaped(evs) && InSync !in evs && Replay(evs) == Latest(snapshot[..n])
  {
    if n > 0 {
      OpeningReplays(snapshot, n - 1);
      var all := OpeningEvents(snapshot);
      assert all[..n] == all[..n - 1] + [Added(snapshot[n - 1])];
      assert snapshot[..n][..n - 1] == snapshot[..n - 1];
      WellShapedExtends(all[..n - 1], Added(snapshot[n - 1]));
    }
  }

  lemma OpeningShape(snapshot: seq<SecretMeta>)
    ensures var evs := OpeningEvents(snapshot);
            WellShaped(evs) && InSync in evs && Replay(evs) == Latest(snapshot)
  {
    OpeningReplays(snapshot, |snapshot|);
    var all := OpeningEvents(snapshot);
    assert all == all[..|snapshot|] + [InSync];
    assert snapshot[..|snapshot|] == snapshot;
    WellShapedExtends(all[..|snapshot|], InSync);
  }

  lemma {:induction false} UpsertsShape(prior: seq<Event>, ms: seq<SecretMeta>)
    requires WellShaped(prior) && InSync in prior
    ensures var seen := Replay(prior); var evs := prior + UpsertEvents(seen, ms);
            WellShaped(evs) && InSync in evs && Replay(evs) == Upserted(seen, ms)
  {
    var seen := Replay(prior);
    if ms == [] {
      assert prior + UpsertEvents(seen, ms) == prior;
    } else {
      var front, m := ms[..|ms| - 1], ms[|ms| - 1];
      UpsertsShape(prior, front);
      var before := prior + UpsertEvents(seen, front);
      var t := Upserted(seen, front);
      if Unchanged(t, m) {
        assert prior + UpsertEvents(seen, ms) == before;
      } else {
        assert prior + UpsertEvents(seen, ms) == before + [Upsert(t, m)];
        WellShapedExtends(before, Upsert(t, m));
      }
    }
  }

  lemma LastIsNew(front: seq<string>, k: string)
    requires Increasing(front + [k])
    ensures k !in front && Increasing(front) && Members(front + [k]) == Members(front) + {k}
  {
    var ks := front + [k];
    forall i | 0 <= i < |front| ensures front[i] != k {
      Text.LessAsymmetric(ks[i], ks[|front|]);
    }
    assert forall i :: 0 <= i < |front| ==> front[i] == ks[i];
  }

  lemma DropOneMore(t: Table, gone: set<string>, k: string)
    ensures t - (gone + {k}) == (t - gone) - {k}
  {}

  lemma OneDeletionMore(before: seq<Event>, t: Table, gone: set<string>, k: string)
    requires WellShaped(before) && InSync in before && Replay(before) == t - gone
    requires k in t && k !in gone && NameOf(t[k]) == k
    ensures var evs := before + [Deleted(t[k])];
            WellShaped(evs) && InSync in evs && Replay(evs) == t - (gone + {k})
  {
    DeletionFits(before, t, gone, k);
    WellShapedExtends(before, Deleted(t[k]));
    DropOneMore(t, gone, k);
  }

  lemma {:induction false} DeletionsShape(prior: seq<Event>, ks: seq<string>)
    requires WellShaped(prior) && InSync in prior
    requires Increasing(ks) && forall k :: k in ks ==> k in Replay(prior)
    ensures var t := Replay(prior); var evs := prior + Deletions(t, ks);
            WellShaped(evs) && InSync in evs && Replay(evs) == t - Members(ks)
  {
    var t := Replay(prior);
    if ks == [] {
      assert prior + Deletions(t, ks) == prior;
      assert t - Members(ks) == t;
    } else {
      var front, k := ks[..|ks| - 1], ks[|ks| - 1];
      assert ks == front + [k];
      LastIsNew(front, k);
      DeletionsShape(prior, front);
      ReplayIndexed(prior);
      DeletionsExtend(t, front, k);
      assert prior + Deletions(t, ks) == prior + Deletions(t, front) + [Deleted(t[k])];
      OneDeletionMore(prior + Deletions(t, front), t, Members(front), k);
    }
  }

  lemma DeletionFits(before: seq<Event>, t: Table, gone: set<string>, k: string)
    requires InSync in before && Replay(before) == t - gone
    requires k in t && k !in gone && NameOf(t[k]) == k
    ensures Fits(before, Deleted(t[k]))
    ensures Replayed(Replay(before), Deleted(t[k])) == (t - gone) - {k}
  {}

  lemma DiffParts(seen: Table, ms: seq<SecretMeta>) returns (t: Table, ks: seq<string>)
    ensures t == Upserted(seen, ms) && Increasing(ks) && forall k :: k in ks ==> k in t
    ensures DiffEvents(seen, ms) == UpsertEvents(seen, ms) + Deletions(t, ks)
    ensures DiffTable(seen, ms) == t - Members(ks)
  {
    t := Upserted(seen, ms);
    ks := InOrder(Gone(t, ms));
    forall k | k in ks ensures k in t {
      assert k in Members(ks);
    }
  }

  lemma DiffShape(prior: seq<Event>, ms: seq<SecretMeta>)
    requires WellShaped(prior) && InSync in prior
    ensures var seen := Replay(prior); var evs := prior + DiffEvents(seen, ms);
            WellShaped(evs) && InSync in evs && Replay(evs) == DiffTable(seen, ms)
  {
    var seen := Replay(prior);
    var ups := UpsertEvents(seen, ms);
    var t, ks := DiffParts(seen, ms);
    UpsertsShape(prior, ms);
    DeletionsShape(prior + ups, ks);
    Regroup(prior, ups, Deletions(t, ks));
  }

  lemma Regroup<T>(a: seq<T>, b: seq<T>, c: seq<T>)
    ensures a + (b + c) == a + b + c
  {}

  // Every run of polls, failed ones included, sends a well-shaped stream,
  // and the poller's own table is what a subscriber replays.
  lemma {:induction false} RunShape(snapshot: seq<SecretMeta>, polls: seq<Poll>)
    ensures var evs := RunEvents(snapshot, polls);
            WellShaped(evs) && InSync in evs && Replay(evs) == RunTable(snapshot, polls)
  {
    if polls == [] {
      OpeningShape(snapshot);
    } else {
      var front := polls[..|polls| - 1];
      RunShape(snapshot, front);
      match polls[|polls| - 1]
      case Failed =>
        assert RunEvents(snapshot, polls) == RunEvents(snapshot, front);
      case Listed(ms) =>
        DiffShape(RunEvents(snapshot, front), ms);
    }
  }

  // ---- the replica agrees with the last good snapshot --------------------

  // One entry more, on a table that has the versions of those before it.
  lemma UpsertKeepsNames(t: Table, seen: Table, front: seq<SecretMeta>, m: SecretMeta)
    requires t.Keys == seen.Keys + Names(front)
    ensures (if Unchanged(t, m) then t else t[NameOf(m) := m]).Keys == seen.Keys + Names(front + [m])
  {
    NamesExtend(front, m);
  }

  lemma UpsertKeepsVersions(t: Table, seen: Table, front: seq<SecretMeta>, m: SecretMeta)
    requires t.Keys == seen.Keys + Names(front)
    requires forall s :: s in Names(front) ==> t[s].version == Latest(front)[s].version
    ensures var u := if Unchanged(t, m) then t else t[NameOf(m) := m];
            u.Keys == seen.Keys + Names(front + [m])
            && forall s :: s in Names(front + [m]) ==> u[s].version == Latest(front + [m])[s].version
  {
    UpsertKeepsNames(t, seen, front, m);
    NamesExtend(front, m);
    LatestExtends(front, m);
    var u := if Unchanged(t, m) then t else t[NameOf(m) := m];
    forall s | s in Names(front) + {NameOf(m)} ensures s in u && u[s].version == Latest(front + [m])[s].version {
      assert s == NameOf(m) || s in Names(front);
    }
  }

  lemma {:induction false} UpsertedVersions(seen: Table, ms: seq<SecretMeta>)
    ensures var t := Upserted(seen, ms);
            t.Keys == seen.Keys + Names(ms)
            && forall s :: s in Names(ms) ==> t[s].version == Latest(ms)[s].version
  {
    if ms != [] {
      var front, m := ms[..|ms| - 1], ms[|ms| - 1];
      UpsertedVersions(seen, front);
      assert ms == front + [m];
      UpsertKeepsVersions(Upserted(seen, front), seen, front, m);
    }
  }

  // Diffing from any table reaches exactly the snapshot's versions.
  lemma {:induction false} DiffReaches(seen: Table, ms: seq<SecretMeta>)
    ensures Versions(DiffTable(seen, ms)) == Versions(Latest(ms))
  {
    UpsertedVersions(seen, ms);
    assert DiffTable(seen, ms).Keys == Names(ms);
  }

  lemma {:induction false} RunReaches(snapshot: seq<SecretMeta>, polls: seq<Poll>)
    ensures Versions(RunTable(snapshot, polls)) == Versions(Latest(LastGood(snapshot, polls)))
  {
    if polls != [] {
      var front := polls[..|polls| - 1];
      match polls[|polls| - 1]
      case Failed => RunReaches(snapshot, front);
      case Listed(ms) => DiffReaches(RunTable(snapshot, front), ms);
    }
  }

  // Replaying a whole run gives the versions of the last good snapshot,
  // whatever polls failed on the way and even if snapshots repeat keys.
  lemma ReplayMatchesSnapshot(snapshot: seq<SecretMeta>, polls: seq<Poll>)
    ensures Versions(Replay(RunEvents(snapshot, polls))) == Versions(Latest(LastGood(snapshot, polls)))
  {
    RunShape(snapshot, polls);
    RunReaches(snapshot, polls);
  }

  // Skipping a snapshot loses nothing: going through it or past it ends in the same view.
  lemma DiffComposes(seen: Table, through: seq<SecretMeta>, ms: seq<SecretMeta>)
    ensures Versions(DiffTable(DiffTable(seen, through), ms)) == Versions(DiffTable(seen, ms))
  {
    DiffReaches(seen, ms);
    DiffReaches(DiffTable(seen, through), ms);
  }

  // ---- filtering a stream by key -----------------------------------------

  ghost predicate Passes(ev: Event, keep: Key -> bool) {
    ev.InSync? || keep(ev.meta.key)
  }

  ghost function Filtered(evs: seq<Event>, keep: Key -> bool): seq<Event> {
    if evs == [] then []
    else
      var front := Filtered(evs[..|evs| - 1], keep);
      if Passes(evs[|evs| - 1], keep) then front + [evs[|evs| - 1]] else front
  }

  lemma FilteredExtends(evs: seq<Event>, ev: Event, keep: Key -> bool)
    ensures Filtered(evs + [ev], keep) == Filtered(evs, keep) + if Passes(ev, keep) then [ev] else []
  {
    assert (evs + [ev])[..|evs|] == evs;
  }

  lemma {:induction false} FilteredGrows(evs: seq<Event>, n: nat, keep: Key -> bool)
    requires n <= |evs|
    ensures Filtered(evs[..n], keep) <= Filtered(evs, keep)
  {
    if n < |evs| {
      FilteredGrows(evs[..|evs| - 1], n, keep);
      assert evs[..|evs| - 1][..n] == evs[..n];
    } else {
      assert evs[..n] == evs;
    }
  }

  lemma ReplayedRestricts(view: Table, ev: Event, keep: Key -> bool)
    requires Indexed(view)
    ensures Restrict(Replayed(view, ev), keep)
            == if Passes(ev, keep) then Replayed(Restrict(view, keep), ev) else Restrict(view, keep)
  {
    match ev
    case InSync =>
    case Added(m) => RestrictPut(view, m, keep);
    case Updated(m) => RestrictPut(view, m, keep);
    case Deleted(m) => RestrictDrop(view, m, keep);
  }

  lemma FitsWhenFiltered(front: seq<Event>, ev: Event, kept: seq<Event>, keep: Key -> bool)
    requires Fits(front, ev) && Passes(ev, keep)
    requires InSync in kept <==> InSync in front
    requires Replay(kept) == Restrict(Replay(front), keep)
    ensures Fits(kept, ev)
  {
    ReplayIndexed(front);
    if !ev.InSync? {
      RestrictLookup(Replay(front), ev.meta, keep);
    }
  }

  // A subscriber of the filtered stream holds the filtered replica, and the
  // filtered stream is still well shaped.
  lemma {:induction false} FilterKeepsShape(evs: seq<Event>, keep: Key -> bool)
    requires WellShaped(evs)
    ensures WellShaped(Filtered(evs, keep))
    ensures InSync in Filtered(evs, keep) <==> InSync in evs
    ensures Replay(Filtered(evs, keep)) == Restrict(Replay(evs), keep)
  {
    if evs == [] {
      assert Restrict(map[], keep) == map[];
    } else {
      var front, ev := evs[..|evs| - 1], evs[|evs| - 1];
      assert evs == front + [ev];
      WellShapedPrefix(front, evs);
      FilterKeepsShape(front, keep);
      ReplayIndexed(front);
      ReplayedRestricts(Replay(front), ev, keep);
      assert Fits(evs[..|evs| - 1], evs[|evs| - 1]);
      if Passes(ev, keep) {
        FitsWhenFiltered(front, ev, Filtered(front, keep), keep);
        WellShapedExtends(Filtered(front, keep), ev);
      }
    }
  }

  // The whole-run theorem behind a watch: replaying the filtered stream gives
  // exactly the versions of the last good snapshot's permitted entries.
  lemma FilteredReplayMatches(snapshot: seq<SecretMeta>, polls: seq<Poll>, keep: Key -> bool)
    ensures Versions(Replay(Filtered(RunEvents(snapshot, polls), keep)))
            == Versions(Latest(KeepMetas(LastGood(snapshot, polls), keep)))
  {
    RunShape(snapshot, polls);
    FilterKeepsShape(RunEvents(snapshot, polls), keep);
    ReplayIndexed(RunEvents(snapshot, polls));
    RunReaches(snapshot, polls);
    LatestOfKept(LastGood(snapshot, polls), keep);
    RestrictVersions(RunTable(snapshot, polls), Latest(LastGood(snapshot, polls)), keep);
  }
}
