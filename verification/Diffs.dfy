/** One poll says exactly what changed: one event for each key that differs,
    in a fixed order, and no shorter report would do. This holds of the
    listings that give no key two versions, and of no others. */
module Diffs {
  import opened Keys
  import opened Secrets
  import opened Sorting
  import opened Streams

  ghost predicate Distinct(ms: seq<SecretMeta>) {
    forall i, j :: 0 <= i < j < |ms| ==> NameOf(ms[i]) != NameOf(ms[j])
  }

  // Keys whose version entry differs between a table and a snapshot.
  ghost function Differing(seen: Table, ms: seq<SecretMeta>): set<string> {
    var now := Latest(ms);
    set s | s in seen.Keys + now.Keys && DiffersAt(seen, now, s)
  }

  predicate DiffersAt(seen: Table, now: Table, s: string) {
    !(s in seen && s in now && seen[s].version == now[s].version)
  }

  ghost function Touched(evs: seq<Event>): set<string> {
    set ev | ev in evs && !ev.InSync? :: NameOf(ev.meta)
  }

  // No two events about the same key.
  ghost predicate OncePerKey(evs: seq<Event>) {
    && InSync !in evs
    && forall i, j :: 0 <= i < j < |evs| ==> NameOf(evs[i].meta) != NameOf(evs[j].meta)
  }

  // The additions and updates judged against the old table alone.
  function Changes(seen: Table, ms: seq<SecretMeta>): seq<Event> {
    if ms == [] then []
    else
      var m := ms[|ms| - 1];
      Changes(seen, ms[..|ms| - 1]) + if Unchanged(seen, m) then [] else [Upsert(seen, m)]
  }

  lemma LastIsFresh(ms: seq<SecretMeta>)
    requires ms != [] && Distinct(ms)
    ensures var front, m := ms[..|ms| - 1], ms[|ms| - 1];
            Distinct(front) && NameOf(m) !in Names(front) && Names(ms) == Names(front) + {NameOf(m)}
  {
    var front, m := ms[..|ms| - 1], ms[|ms| - 1];
    assert ms == front + [m];
    forall x | x in front ensures NameOf(x) != NameOf(m) {
      var i :| 0 <= i < |front| && front[i] == x;
      assert ms[i] == x;
    }
  }

  lemma {:induction false} UpsertsAreChanges(seen: Table, ms: seq<SecretMeta>)
    requires Distinct(ms)
    ensures UpsertEvents(seen, ms) == Changes(seen, ms)
    ensures forall s :: s !in Names(ms) ==> (s in Upserted(seen, ms) <==> s in seen)
    ensures forall s :: s in seen && s !in Names(ms) ==> Upserted(seen, ms)[s] == seen[s]
  {
    if ms != [] {
      LastIsFresh(ms);
      UpsertsAreChanges(seen, ms[..|ms| - 1]);
    }
  }

  lemma {:induction false} SameDeletions(t: Table, seen: Table, ks: seq<string>)
    requires forall k :: k in ks ==> k in t && k in seen && t[k] == seen[k]
    ensures Deletions(t, ks) == Deletions(seen, ks)
  {
    if ks != [] {
      SameDeletions(t, seen, ks[..|ks| - 1]);
    }
  }

  lemma DistinctDiffOrder(seen: Table, ms: seq<SecretMeta>)
    requires Distinct(ms)
    ensures DiffEvents(seen, ms) == Changes(seen, ms) + DeletionEvents(seen, Gone(seen, ms))
  {
    UpsertsAreChanges(seen, ms);
    var t := Upserted(seen, ms);
    UpsertedVersions(seen, ms);
    assert Gone(t, ms) == Gone(seen, ms);
    var ks := InOrder(Gone(seen, ms));
    forall k | k in ks ensures k in t && k in seen && t[k] == seen[k] {
      assert k in Members(ks);
    }
    SameDeletions(t, seen, ks);
  }

  lemma DifferingGrows(seen: Table, ms: seq<SecretMeta>)
    requires ms != [] && Distinct(ms)
    ensures var front, m := ms[..|ms| - 1], ms[|ms| - 1];
            Differing(seen, ms) * Names(ms)
            == Differing(seen, front) * Names(front) + if Unchanged(seen, m) then {} else {NameOf(m)}
  {
    LastIsFresh(ms);
    var front, m := ms[..|ms| - 1], ms[|ms| - 1];
    var n, a, b := NameOf(m), Latest(ms), Latest(front);
    assert a == b[n := m];
    assert a.Keys == Names(ms) && b.Keys == Names(front);
    forall s | s != n ensures s in Differing(seen, ms) * Names(ms) <==> s in Differing(seen, front) * Names(front) {
      assert DiffersAt(seen, a, s) == DiffersAt(seen, b, s);
    }
    assert n in Differing(seen, ms) <==> !Unchanged(seen, m);
  }

  lemma {:induction false} ChangesExact(seen: Table, ms: seq<SecretMeta>)
    requires Distinct(ms)
    ensures OncePerKey(Changes(seen, ms))
    ensures Touched(Changes(seen, ms)) == Differing(seen, ms) * Names(ms)
  {
    if ms != [] {
      var front, m := ms[..|ms| - 1], ms[|ms| - 1];
      LastIsFresh(ms);
      ChangesExact(seen, front);
      DifferingGrows(seen, ms);
      var evs := Changes(seen, front);
      if !Unchanged(seen, m) {
        AppendFresh(evs, Upsert(seen, m));
      }
    }
  }

  lemma AppendFresh(evs: seq<Event>, ev: Event)
    requires OncePerKey(evs) && !ev.InSync? && NameOf(ev.meta) !in Touched(evs)
    ensures OncePerKey(evs + [ev]) && Touched(evs + [ev]) == Touched(evs) + {NameOf(ev.meta)}
  {
    forall i | 0 <= i < |evs| ensures NameOf(evs[i].meta) != NameOf(ev.meta) {
      assert evs[i] in evs;
    }
  }

  lemma {:induction false} DeletionsExact(evs: seq<Event>, t: Table, ks: seq<string>)
    requires OncePerKey(evs) && Increasing(ks) && Members(ks) !! Touched(evs)
    requires Indexed(t) && forall k :: k in ks ==> k in t
    ensures var all := evs + Deletions(t, ks); OncePerKey(all) && Touched(all) == Touched(evs) + Members(ks)
  {
    if ks == [] {
      assert evs + Deletions(t, ks) == evs;
    } else {
      var front, k := ks[..|ks| - 1], ks[|ks| - 1];
      assert ks == front + [k];
      LastIsNew(front, k);
      DeletionsExact(evs, t, front);
      DeletionsExtend(t, front, k);
      assert evs + Deletions(t, ks) == evs + Deletions(t, front) + [Deleted(t[k])];
      assert k in Members(ks) && NameOf(t[k]) == k;
      AppendFresh(evs + Deletions(t, front), Deleted(t[k]));
    }
  }

  ghost predicate Exact(seen: Table, ms: seq<SecretMeta>) {
    OncePerKey(DiffEvents(seen, ms)) && Touched(DiffEvents(seen, ms)) == Differing(seen, ms)
  }

  lemma DistinctDiffIsExact(seen: Table, ms: seq<SecretMeta>)
    requires Distinct(ms) && Indexed(seen)
    ensures Exact(seen, ms)
  {
    DistinctDiffOrder(seen, ms);
    ChangesExact(seen, ms);
    var ks := InOrder(Gone(seen, ms));
    forall k | k in ks ensures k in seen {
      assert k in Members(ks);
    }
    DeletionsExact(Changes(seen, ms), seen, ks);
    assert Differing(seen, ms) == Differing(seen, ms) * Names(ms) + Gone(seen, ms);
  }

  lemma {:induction false} ChangesMembers(seen: Table, ms: seq<SecretMeta>, ev: Event)
    ensures ev in Changes(seen, ms) <==> exists m :: m in ms && !Unchanged(seen, m) && ev == Upsert(seen, m)
  {
    if ms != [] {
      ChangesMembers(seen, ms[..|ms| - 1], ev);
      assert ms == ms[..|ms| - 1] + [ms[|ms| - 1]];
    }
  }

  lemma {:induction false} DeletionsDelete(t: Table, ks: seq<string>, ev: Event)
    requires forall k :: k in ks ==> k in t
    ensures ev in Deletions(t, ks) ==> ev.Deleted?
  {
    if ks != [] {
      DeletionsDelete(t, ks[..|ks| - 1], ev);
    }
  }

  // A listed entry is reported exactly when its version is not the known one.
  lemma {:induction false} ReportedIffChanged(seen: Table, ms: seq<SecretMeta>, m: SecretMeta)
    requires Distinct(ms) && m in ms
    ensures Added(m) in DiffEvents(seen, ms) <==> NameOf(m) !in seen
    ensures Updated(m) in DiffEvents(seen, ms) <==> NameOf(m) in seen && seen[NameOf(m)].version != m.version
  {
    DistinctDiffOrder(seen, ms);
    ChangesMembers(seen, ms, Added(m));
    ChangesMembers(seen, ms, Updated(m));
    var ks := InOrder(Gone(seen, ms));
    assert forall k :: k in ks ==> k in Members(ks);
    DeletionsDelete(seen, ks, Added(m));
    DeletionsDelete(seen, ks, Updated(m));
  }

  // ---- listings that repeat a key ----------------------------------------

  // No key is listed at two versions.
  ghost predicate OneVersion(ms: seq<SecretMeta>) {
    forall x, y :: x in ms && y in ms && NameOf(x) == NameOf(y) ==> x.version == y.version
  }

  // The entries whose key was not listed before.
  ghost function Firsts(ms: seq<SecretMeta>): seq<SecretMeta> {
    if ms == [] then []
    else
      var front, m := ms[..|ms| - 1], ms[|ms| - 1];
      if NameOf(m) in Names(front) then Firsts(front) else Firsts(front) + [m]
  }

  lemma {:induction false} LatestIsListed(ms: seq<SecretMeta>, s: string)
    requires s in Latest(ms)
    ensures Latest(ms)[s] in ms && NameOf(Latest(ms)[s]) == s
  {
    var front, m := ms[..|ms| - 1], ms[|ms| - 1];
    assert ms == front + [m];
    if s != NameOf(m) {
      LatestIsListed(front, s);
    }
  }

  // A repeated entry is at the version already known.
  lemma RepeatIsKnown(front: seq<SecretMeta>, m: SecretMeta)
    requires OneVersion(front + [m]) && NameOf(m) in Names(front)
    ensures Versions(Latest(front))[NameOf(m)] == m.version
  {
    LatestIsListed(front, NameOf(m));
    assert Latest(front)[NameOf(m)] in front + [m] && m in front + [m];
  }

  // So it is passed over.
  lemma RepeatPassedOver(seen: Table, front: seq<SecretMeta>, m: SecretMeta)
    requires NameOf(m) in Names(front) && Versions(Latest(front))[NameOf(m)] == m.version
    ensures Unchanged(Upserted(seen, front), m)
  {
    UpsertedVersions(seen, front);
  }

  lemma RepeatAddsNothing(front: seq<SecretMeta>, m: SecretMeta)
    requires NameOf(m) in Names(front) && Versions(Latest(front))[NameOf(m)] == m.version
    ensures Versions(Latest(front + [m])) == Versions(Latest(front)) && Names(front + [m]) == Names(front)
  {
    LatestExtends(front, m);
    SameVersionPut(Latest(front), m);
    NamesExtend(front, m);
  }

  lemma SameVersionPut(t: Table, m: SecretMeta)
    requires Unchanged(t, m)
    ensures Versions(t[NameOf(m) := m]) == Versions(t)
  {}

  lemma FirstStays(front: seq<SecretMeta>, m: SecretMeta)
    requires Distinct(Firsts(front)) && Names(Firsts(front)) == Names(front) && NameOf(m) !in Names(front)
    ensures Distinct(Firsts(front) + [m]) && Names(Firsts(front) + [m]) == Names(front + [m])
  {
    NamesExtend(Firsts(front), m);
    NamesExtend(front, m);
    forall i | 0 <= i < |Firsts(front)| ensures NameOf(Firsts(front)[i]) != NameOf(m) {
      assert Firsts(front)[i] in Firsts(front);
    }
  }

  lemma VersionsPut(t: Table, u: Table, m: SecretMeta)
    requires Versions(t) == Versions(u)
    ensures Versions(t[NameOf(m) := m]) == Versions(u[NameOf(m) := m])
  {
    assert t.Keys == Versions(t).Keys && u.Keys == Versions(u).Keys;
    forall s | s in t ensures t[s].version == u[s].version {
      assert Versions(t)[s] == Versions(u)[s];
    }
  }

  // If no key is listed at two versions, repeats change nothing.
  lemma {:induction false} FirstsSuffice(seen: Table, ms: seq<SecretMeta>)
    requires OneVersion(ms)
    ensures Distinct(Firsts(ms)) && Names(Firsts(ms)) == Names(ms)
    ensures Upserted(seen, Firsts(ms)) == Upserted(seen, ms)
    ensures UpsertEvents(seen, Firsts(ms)) == UpsertEvents(seen, ms)
    ensures Versions(Latest(Firsts(ms))) == Versions(Latest(ms))
  {
    if ms != [] {
      var front, m := ms[..|ms| - 1], ms[|ms| - 1];
      assert ms == front + [m];
      assert forall x :: x in front ==> x in ms;
      FirstsSuffice(seen, front);
      UpsertsExtend(seen, front, m);
      if NameOf(m) in Names(front) {
        RepeatIsKnown(front, m);
        RepeatPassedOver(seen, front, m);
        RepeatAddsNothing(front, m);
      } else {
        FirstStays(front, m);
        UpsertsExtend(seen, Firsts(front), m);
        LatestExtends(front, m);
        LatestExtends(Firsts(front), m);
        VersionsPut(Latest(Firsts(front)), Latest(front), m);
      }
    }
  }

  lemma DifferingByVersions(seen: Table, ms: seq<SecretMeta>, ns: seq<SecretMeta>)
    requires Versions(Latest(ms)) == Versions(Latest(ns))
    ensures Differing(seen, ms) == Differing(seen, ns)
  {
    forall s ensures s in Differing(seen, ms) <==> s in Differing(seen, ns) {
      SameVersions(Latest(ms), Latest(ns), s);
    }
  }

  lemma FirstsDiff(seen: Table, ms: seq<SecretMeta>)
    requires OneVersion(ms)
    ensures Distinct(Firsts(ms)) && Gone(seen, Firsts(ms)) == Gone(seen, ms)
    ensures DiffEvents(seen, Firsts(ms)) == DiffEvents(seen, ms)
    ensures Differing(seen, Firsts(ms)) == Differing(seen, ms)
  {
    FirstsSuffice(seen, ms);
    DifferingByVersions(seen, Firsts(ms), ms);
  }

  // A poll of a listing in which no key has two versions sends the changed
  // entries in snapshot order, then the missing keys in increasing order with
  // the metadata last known.
  lemma DiffOrder(seen: Table, ms: seq<SecretMeta>)
    requires OneVersion(ms)
    ensures DiffEvents(seen, ms) == Changes(seen, Firsts(ms)) + DeletionEvents(seen, Gone(seen, ms))
    ensures Distinct(ms) ==> Firsts(ms) == ms
  {
    FirstsDiff(seen, ms);
    DistinctDiffOrder(seen, Firsts(ms));
    if Distinct(ms) {
      DistinctFirsts(ms);
    }
  }

  lemma {:induction false} DistinctFirsts(ms: seq<SecretMeta>)
    requires Distinct(ms)
    ensures Firsts(ms) == ms && OneVersion(ms)
  {
    if ms != [] {
      LastIsFresh(ms);
      DistinctFirsts(ms[..|ms| - 1]);
      assert ms == ms[..|ms| - 1] + [ms[|ms| - 1]];
      forall x, y | x in ms && y in ms && NameOf(x) == NameOf(y) ensures x == y {
        var i :| 0 <= i < |ms| && ms[i] == x;
        var j :| 0 <= j < |ms| && ms[j] == y;
        assert i == j;
      }
    }
  }

  // Exactly one event per key whose version entry differs, none otherwise.
  lemma {:induction false} DiffIsExact(seen: Table, ms: seq<SecretMeta>)
    requires OneVersion(ms) && Indexed(seen)
    ensures OncePerKey(DiffEvents(seen, ms)) && Touched(DiffEvents(seen, ms)) == Differing(seen, ms)
  {
    FirstsDiff(seen, ms);
    DistinctDiffIsExact(seen, Firsts(ms));
  }

  lemma {:induction false} SilentUpserts(seen: Table, ms: seq<SecretMeta>)
    requires UpsertEvents(seen, ms) == []
    ensures Upserted(seen, ms) == seen && forall m :: m in ms ==> Unchanged(seen, m)
  {
    if ms != [] {
      var front, m := ms[..|ms| - 1], ms[|ms| - 1];
      assert ms == front + [m];
      UpsertsExtend(seen, front, m);
      SilentUpserts(seen, front);
    }
  }

  // Seeing the same listing again, nothing differs; but the poll is silent
  // exactly when no key is listed at two versions. Otherwise every poll of
  // that listing reports changes that are not there.
  lemma {:induction false} SilentIffOneVersion(ms: seq<SecretMeta>)
    ensures Differing(Latest(ms), ms) == {}
    ensures DiffEvents(Latest(ms), ms) == [] <==> OneVersion(ms)
  {
    var seen := Latest(ms);
    if DiffEvents(seen, ms) == [] {
      SilentUpserts(seen, ms);
    }
    if OneVersion(ms) {
      DiffIsExact(seen, ms);
      OncePerKeyCounts(DiffEvents(seen, ms));
    }
  }

  // The report is exact, whatever table it starts from, precisely for the
  // listings in which no key has two versions.
  lemma {:induction false} DiffIsExactIff(ms: seq<SecretMeta>)
    ensures (forall seen :: Indexed(seen) ==> Exact(seen, ms)) <==> OneVersion(ms)
  {
    if OneVersion(ms) {
      forall seen | Indexed(seen) ensures Exact(seen, ms) {
        DiffIsExact(seen, ms);
      }
    }
    if Exact(Latest(ms), ms) {
      SilentIffOneVersion(ms);
      OncePerKeyCounts(DiffEvents(Latest(ms), ms));
    }
  }

  lemma TwoEntries(m1: SecretMeta, m2: SecretMeta)
    requires m1.key == m2.key
    ensures Latest([m1, m2]) == map[NameOf(m1) := m2]
  {
    LatestExtends([], m1);
    LatestExtends([m1], m2);
    assert [] + [m1] == [m1] && [m1] + [m2] == [m1, m2];
  }

  lemma TwoUpdates(seen: Table, m1: SecretMeta, m2: SecretMeta)
    requires m1.key == m2.key && m1.version != m2.version && NameOf(m1) in seen && seen[NameOf(m1)] == m2
    ensures UpsertEvents(seen, [m1, m2]) == [Updated(m1), Updated(m2)] && Upserted(seen, [m1, m2]) == seen
  {
    UpsertsExtend(seen, [], m1);
    UpsertsExtend(seen, [m1], m2);
    assert [] + [m1] == [m1] && [m1] + [m2] == [m1, m2];
    assert NameOf(m2) == NameOf(m1);
  }

  // The smallest such listing: a key at two versions, reported twice by every
  // poll though nothing differs.
  lemma RepeatedKeyFlaps(m1: SecretMeta, m2: SecretMeta)
    requires m1.key == m2.key && m1.version != m2.version
    ensures var ms := [m1, m2];
            Differing(Latest(ms), ms) == {} && DiffEvents(Latest(ms), ms) == [Updated(m1), Updated(m2)]
  {
    TwoEntries(m1, m2);
    TwoUpdates(Latest([m1, m2]), m1, m2);
    NothingGone(Latest([m1, m2]), [m1, m2]);
  }

  lemma NothingGone(t: Table, ms: seq<SecretMeta>)
    requires Upserted(t, ms) == t && t.Keys <= Names(ms)
    ensures DiffEvents(t, ms) == UpsertEvents(t, ms)
  {
    var _, ks := DiffParts(t, ms);
    HeadMember(InOrder(Gone(t, ms)));
  }

  // ---- minimality --------------------------------------------------------

  lemma {:induction false} UntouchedStays(prior: seq<Event>, evs: seq<Event>, s: string)
    requires s !in Touched(evs)
    ensures var before, after := Replay(prior), Replay(prior + evs);
            (s in after <==> s in before) && (s in before ==> after[s] == before[s])
  {
    if evs == [] {
      assert prior + evs == prior;
    } else {
      var front, ev := evs[..|evs| - 1], evs[|evs| - 1];
      assert evs == front + [ev];
      UntouchedStays(prior, front, s);
      assert (prior + evs)[..|prior + evs| - 1] == prior + front;
    }
  }

  lemma TouchedExtends(front: seq<Event>, ev: Event)
    ensures Touched(front + [ev]) == Touched(front) + if ev.InSync? then {} else {NameOf(ev.meta)}
  {}

  lemma {:induction false} TouchedIsSmall(evs: seq<Event>)
    ensures |Touched(evs)| <= |evs|
  {
    if evs != [] {
      var front, ev := evs[..|evs| - 1], evs[|evs| - 1];
      assert evs == front + [ev];
      TouchedIsSmall(front);
      TouchedExtends(front, ev);
    }
  }

  lemma {:induction false} OncePerKeyCounts(evs: seq<Event>)
    requires OncePerKey(evs)
    ensures |Touched(evs)| == |evs|
  {
    if evs != [] {
      var front, ev := evs[..|evs| - 1], evs[|evs| - 1];
      assert evs == front + [ev];
      forall x | x in front ensures !x.InSync? && NameOf(x.meta) != NameOf(ev.meta) {
        var i :| 0 <= i < |front| && front[i] == x;
        assert evs[i] == x;
      }
      assert OncePerKey(front) by {
        assert forall i :: 0 <= i < |front| ==> front[i] == evs[i];
      }
      OncePerKeyCounts(front);
      TouchedExtends(front, ev);
      assert NameOf(ev.meta) !in Touched(front);
    }
  }

  lemma SameVersions(t: Table, u: Table, s: string)
    requires Versions(t) == Versions(u)
    ensures s in t <==> s in u
    ensures s in t ==> t[s].version == u[s].version
  {
    assert s in t <==> s in Versions(t);
    assert s in u <==> s in Versions(u);
    if s in t {
      assert Versions(t)[s] == Versions(u)[s];
    }
  }

  // Any report that brings a replica to the snapshot's versions is at least
  // as long as the one the poll sends.
  lemma {:induction false} DiffIsMinimal(prior: seq<Event>, ms: seq<SecretMeta>, evs: seq<Event>)
    requires OneVersion(ms)
    requires Versions(Replay(prior + evs)) == Versions(Latest(ms))
    ensures |DiffEvents(Replay(prior), ms)| <= |evs|
  {
    var seen, after, now := Replay(prior), Replay(prior + evs), Latest(ms);
    ReplayIndexed(prior);
    DiffIsExact(seen, ms);
    OncePerKeyCounts(DiffEvents(seen, ms));
    TouchedIsSmall(evs);
    forall s | s !in Touched(evs) ensures s !in Differing(seen, ms) {
      UntouchedStays(prior, evs, s);
      SameVersions(after, now, s);
    }
    SubsetIsSmaller(Differing(seen, ms), Touched(evs));
  }

  ghost predicate Shortest(prior: seq<Event>, ms: seq<SecretMeta>, evs: seq<Event>) {
    Versions(Replay(prior + evs)) == Versions(Latest(ms)) ==> |DiffEvents(Replay(prior), ms)| <= |evs|
  }

  // And the poll's report is the shortest there is, after any stream, for
  // those listings only.
  lemma {:induction false} DiffIsMinimalIff(ms: seq<SecretMeta>)
    ensures (forall prior, evs :: Shortest(prior, ms, evs)) <==> OneVersion(ms)
  {
    if OneVersion(ms) {
      forall prior, evs ensures Shortest(prior, ms, evs) {
        if Versions(Replay(prior + evs)) == Versions(Latest(ms)) {
          DiffIsMinimal(prior, ms, evs);
        }
      }
    } else {
      SilentIffOneVersion(ms);
      var prior := OpeningEvents(ms);
      OpeningShape(ms);
      assert prior + [] == prior;
      assert !Shortest(prior, ms, []);
    }
  }

  lemma {:induction false} SubsetIsSmaller(a: set<string>, b: set<string>)
    requires a <= b
    ensures |a| <= |b|
  {
    if a != {} {
      var x :| x in a;
      SubsetIsSmaller(a - {x}, b - {x});
    }
  }
}
