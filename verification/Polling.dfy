/** The poller: one goroutine that turns listings into events on a channel. */
module Polling {
  import opened Outcomes
  import opened Contexts
  import opened Keys
  import opened Secrets
  import opened Sorting
  import opened Streams

  datatype PollError = Cancelled | ListFailed

  class Poller {
    const ctx: Context
    var seen: Table
    ghost var sent: seq<Event>  // what the subscriber has taken from the channel

    constructor (ctx: Context)
      ensures this.ctx == ctx && seen == map[] && sent == []
    {
      this.ctx := ctx;
      seen, sent := map[], [];
    }

    // Delivers ev unless the context ends first.
    method Emit(ev: Event) returns (ok: bool)
      modifies `sent, ctx
      ensures sent == if ok then old(sent) + [ev] else old(sent)
      ensures (!ok || old(ctx.ended)) ==> ctx.ended
    {
      ok := ctx.Select();
      if ok {
        sent := sent + [ev];
      }
    }

    // The opening phase: the first snapshot, then InSync.
    method Open(snapshot: seq<SecretMeta>) returns (ok: bool)
      requires seen == map[] && sent == []
      modifies this, ctx
      ensures (!ok || old(ctx.ended)) ==> ctx.ended
      ensures sent <= OpeningEvents(snapshot)
      ensures ok ==> sent == OpeningEvents(snapshot) && seen == Latest(snapshot)
    {
      ghost var all := OpeningEvents(snapshot);
      for i := 0 to |snapshot|
        invariant old(ctx.ended) ==> ctx.ended
        invariant sent == all[..i] && seen == Latest(snapshot[..i])
      {
        OpeningStep(snapshot, i);
        seen := seen[NameOf(snapshot[i]) := snapshot[i]];
        ok := Emit(Added(snapshot[i]));
        if !ok {
          return;
        }
      }
      assert snapshot[..|snapshot|] == snapshot;
      ok := Emit(InSync);
    }

    // One successful poll.
    method Diff(metas: seq<SecretMeta>) returns (ok: bool)
      modifies this, ctx
      ensures (!ok || old(ctx.ended)) ==> ctx.ended
      ensures old(sent) <= sent <= old(sent) + DiffEvents(old(seen), metas)
      ensures ok ==> sent == old(sent) + DiffEvents(old(seen), metas) && seen == DiffTable(old(seen), metas)
    {
      var present: set<string>;
      ok, present := SendUpserts(metas);
      if !ok {
        return;
      }
      var gone := Missing(present);
      assert Gone(seen, metas) == seen.Keys - present;
      assert forall k :: k in gone ==> k in Members(gone);
      ok := SendDeletions(gone);
    }

    method SendUpserts(metas: seq<SecretMeta>) returns (ok: bool, present: set<string>)
      modifies this, ctx
      ensures (!ok || old(ctx.ended)) ==> ctx.ended
      ensures old(sent) <= sent <= old(sent) + UpsertEvents(old(seen), metas)
      ensures ok ==> sent == old(sent) + UpsertEvents(old(seen), metas)
      ensures ok ==> seen == Upserted(old(seen), metas) && present == Names(metas)
    {
      ghost var table, base := seen, sent;
      UpsertsBegin(base, table, metas);
      present := {};
      for i := 0 to |metas|
        invariant old(ctx.ended) ==> ctx.ended
        invariant present == Names(metas[..i])
        invariant Upserting(base, table, metas, i, seen, sent)
      {
        var meta := metas[i];
        var k := NameOf(meta);
        UpsertsStep(base, table, metas, i, seen, sent);
        NamesStep(metas, i);
        present := present + {k};
        if k in seen && seen[k].version == meta.version {
          continue;
        }
        var typ := if k in seen then Updated(meta) else Added(meta);
        seen := seen[k := meta];
        ok := Emit(typ);
        if !ok {
          return;
        }
      }
      UpsertsEnd(base, table, metas, seen, sent);
      assert metas[..|metas|] == metas;
      ok := true;
    }

    method SendDeletions(gone: seq<string>) returns (ok: bool)
      requires Increasing(gone) && forall k :: k in gone ==> k in seen
      modifies this, ctx
      ensures (!ok || old(ctx.ended)) ==> ctx.ended
      ensures old(sent) <= sent <= old(sent) + Deletions(old(seen), gone)
      ensures ok ==> sent == old(sent) + Deletions(old(seen), gone)
      ensures ok ==> seen == old(seen) - Members(gone)
    {
      ghost var t, base := seen, sent;
      DeletionsBegin(base, t, gone);
      for i := 0 to |gone|
        invariant old(ctx.ended) ==> ctx.ended
        invariant Deleting(base, t, gone, i, seen, sent)
      {
        var k := gone[i];
        DeletionsStep(base, t, gone, i, seen, sent);
        var meta := seen[k];
        seen := seen - {k};
        ok := Emit(Deleted(meta));
        if !ok {
          return;
        }
      }
      DeletionsEnd(base, t, gone, seen, sent);
      ok := true;
    }

    // The keys no longer present, sorted; the map is walked in any order.
    method Missing(present: set<string>) returns (gone: seq<string>)
      ensures gone == InOrder(seen.Keys - present)
    {
      gone := [];
      var rest := seen.Keys;
      while rest != {}
        invariant rest <= seen.Keys
        invariant Members(gone) == seen.Keys - present - rest
        invariant forall i, j :: 0 <= i < j < |gone| ==> gone[i] != gone[j]
        decreases rest
      {
        var k :| k in rest;
        rest := rest - {k};
        if k !in present {
          assert k !in Members(gone);
          assert Members(gone + [k]) == Members(gone) + {k};
          gone := gone + [k];
        }
      }
      SortIncreases(gone);
      gone := Sort(gone, Self);
      IncreasingUnique(gone, InOrder(seen.Keys - present));
    }

    // The goroutine's life over any number of ticks. It sends everything
    // unless the context ends; a failed poll is skipped, unless it finds the
    // context ended.
    method Run(snapshot: seq<SecretMeta>, polls: seq<Poll>) returns (ok: bool)
      requires seen == map[] && sent == []
      modifies this, ctx
      ensures sent <= RunEvents(snapshot, polls)
      ensures ok ==> sent == RunEvents(snapshot, polls) && seen == RunTable(snapshot, polls)
      ensures (!ok || old(ctx.ended)) ==> ctx.ended
      ensures old(ctx.ended) && Failed in polls ==> !ok
    {
      RunGrows(snapshot, polls, 0);
      ok := Open(snapshot);
      if !ok {
        return;
      }
      for n := 0 to |polls|
        invariant sent == RunEvents(snapshot, polls[..n]) && seen == RunTable(snapshot, polls[..n])
        invariant old(ctx.ended) ==> ctx.ended && Failed !in polls[..n]
      {
        RunGrows(snapshot, polls, n);
        RunGrows(snapshot, polls, n + 1);
        assert polls[..n + 1] == polls[..n] + [polls[n]];
        assert polls[..n + 1][..n] == polls[..n];
        var ticked := ctx.Select();
        if !ticked {
          return false;
        }
        ctx.Pass();
        match polls[n]
        case Failed =>
          if ctx.ended {
            return false;
          }
        case Listed(metas) =>
          ok := Diff(metas);
          if !ok {
            return;
          }
      }
      assert polls[..|polls|] == polls;
      return true;
    }
  }

  // Poll itself: no channel for a context that has ended or a backend that is
  // down at subscribe time.
  method Subscribe(ctx: Context, first: Poll) returns (r: Result<Poller, PollError>)
    ensures ctx.ended ==> r == Err(Cancelled)
    ensures !ctx.ended && first.Failed? ==> r == Err(ListFailed)
    ensures !ctx.ended && first.Listed? ==>
              r.Ok? && fresh(r.value) && r.value.ctx == ctx && r.value.seen == map[] && r.value.sent == []
  {
    if ctx.ended {
      return Err(Cancelled);
    }
    if first.Failed? {
      return Err(ListFailed);
    }
    var p := new Poller(ctx);
    return Ok(p);
  }

  lemma PrefixChain<T>(a: seq<T>, b: seq<T>, c: seq<T>)
    requires a <= b && b <= c
    ensures a <= c
  {}

  lemma OneUpsertMore(seen: Table, front: seq<SecretMeta>, m: SecretMeta)
    ensures UpsertEvents(seen, front) <= UpsertEvents(seen, front + [m])
  {
    UpsertsExtend(seen, front, m);
  }

  lemma {:induction false} UpsertsPrefix(seen: Table, ms: seq<SecretMeta>, i: nat)
    requires i <= |ms|
    ensures UpsertEvents(seen, ms[..i]) <= UpsertEvents(seen, ms)
    decreases |ms| - i
  {
    if i < |ms| {
      assert ms[..i + 1] == ms[..i] + [ms[i]];
      OneUpsertMore(seen, ms[..i], ms[i]);
      UpsertsPrefix(seen, ms, i + 1);
      PrefixChain(UpsertEvents(seen, ms[..i]), UpsertEvents(seen, ms[..i + 1]), UpsertEvents(seen, ms));
    } else {
      assert ms[..i] == ms;
    }
  }

  lemma OpeningStep(snapshot: seq<SecretMeta>, i: nat)
    requires i < |snapshot|
    ensures OpeningEvents(snapshot)[..i + 1] == OpeningEvents(snapshot)[..i] + [Added(snapshot[i])]
    ensures Latest(snapshot[..i + 1]) == Latest(snapshot[..i])[NameOf(snapshot[i]) := snapshot[i]]
  {
    LatestExtends(snapshot[..i], snapshot[i]);
    assert snapshot[..i + 1] == snapshot[..i] + [snapshot[i]];
  }

  lemma Onto<T>(base: seq<T>, x: seq<T>, more: seq<T>, all: seq<T>)
    requires x + more <= all
    ensures base + (x + more) == base + x + more && base + (x + more) <= base + all
  {}

  // The upserts of the first i entries are sent.
  ghost predicate Upserting(base: seq<Event>, t: Table, ms: seq<SecretMeta>, i: nat, seen: Table, sent: seq<Event>)
    requires i <= |ms|
  {
    && seen == Upserted(t, ms[..i])
    && sent == base + UpsertEvents(t, ms[..i])
    && base <= sent <= base + UpsertEvents(t, ms)
  }

  lemma UpsertsBegin(base: seq<Event>, t: Table, ms: seq<SecretMeta>)
    ensures Upserting(base, t, ms, 0, t, base)
  {
    assert ms[..0] == [] && base + [] == base;
  }

  lemma UpsertsStep(base: seq<Event>, t: Table, ms: seq<SecretMeta>, i: nat, seen: Table, sent: seq<Event>)
    requires i < |ms| && Upserting(base, t, ms, i, seen, sent)
    ensures if Unchanged(seen, ms[i]) then Upserting(base, t, ms, i + 1, seen, sent)
            else Upserting(base, t, ms, i + 1, seen[NameOf(ms[i]) := ms[i]], sent + [Upsert(seen, ms[i])])
  {
    UpsertsPrefix(t, ms, i + 1);
    UpsertsExtend(t, ms[..i], ms[i]);
    assert ms[..i + 1] == ms[..i] + [ms[i]];
    var more := if Unchanged(seen, ms[i]) then [] else [Upsert(seen, ms[i])];
    Onto(base, UpsertEvents(t, ms[..i]), more, UpsertEvents(t, ms));
  }

  lemma UpsertsEnd(base: seq<Event>, t: Table, ms: seq<SecretMeta>, seen: Table, sent: seq<Event>)
    requires Upserting(base, t, ms, |ms|, seen, sent)
    ensures seen == Upserted(t, ms) && sent == base + UpsertEvents(t, ms)
  {
    assert ms[..|ms|] == ms;
  }

  lemma NamesStep(ms: seq<SecretMeta>, i: nat)
    requires i < |ms|
    ensures Names(ms[..i + 1]) == Names(ms[..i]) + {NameOf(ms[i])}
  {
    assert ms[..i + 1] == ms[..i] + [ms[i]];
    NamesExtend(ms[..i], ms[i]);
  }

  // The first i deletions are sent.
  ghost predicate Deleting(base: seq<Event>, t: Table, gone: seq<string>, i: nat, seen: Table, sent: seq<Event>)
    requires i <= |gone| && forall k :: k in gone ==> k in t
  {
    && seen == t - Members(gone[..i])
    && sent == base + Deletions(t, gone[..i])
    && base <= sent <= base + Deletions(t, gone)
  }

  lemma DeletionsBegin(base: seq<Event>, t: Table, gone: seq<string>)
    requires forall k :: k in gone ==> k in t
    ensures Deleting(base, t, gone, 0, t, base)
  {
    assert gone[..0] == [] && t - Members(gone[..0]) == t && base + Deletions(t, []) == base;
  }

  lemma DeletionsEnd(base: seq<Event>, t: Table, gone: seq<string>, seen: Table, sent: seq<Event>)
    requires forall k :: k in gone ==> k in t
    requires Deleting(base, t, gone, |gone|, seen, sent)
    ensures seen == t - Members(gone) && sent == base + Deletions(t, gone)
  {
    assert gone[..|gone|] == gone;
  }

  lemma DeletionsStep(base: seq<Event>, t: Table, gone: seq<string>, i: nat, seen: Table, sent: seq<Event>)
    requires i < |gone| && Increasing(gone) && forall k :: k in gone ==> k in t
    requires Deleting(base, t, gone, i, seen, sent)
    ensures gone[i] in seen && seen[gone[i]] == t[gone[i]]
    ensures Deleting(base, t, gone, i + 1, seen - {gone[i]}, sent + [Deleted(t[gone[i]])])
  {
    var front, k := gone[..i], gone[i];
    assert gone[..i + 1] == front + [k];
    LastIsNew(front, k);
    DropOneMore(t, Members(front), k);
    DeletionsExtend(t, front, k);
    DeletionsPrefix(t, gone, i + 1);
    Onto(base, Deletions(t, front), [Deleted(t[k])], Deletions(t, gone));
  }

  lemma {:induction false} DeletionsPrefix(t: Table, ks: seq<string>, i: nat)
    requires i <= |ks| && forall k :: k in ks ==> k in t
    ensures Deletions(t, ks[..i]) <= Deletions(t, ks)
    decreases |ks| - i
  {
    if i < |ks| {
      DeletionsPrefix(t, ks, i + 1);
      DeletionsExtend(t, ks[..i], ks[i]);
      assert ks[..i + 1] == ks[..i] + [ks[i]];
    } else {
      assert ks[..i] == ks;
    }
  }
}
