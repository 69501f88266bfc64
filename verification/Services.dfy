/** The policy layer between callers and a store: listing and watching. */
module Services {
  import opened Outcomes
  import opened Contexts
  import opened Keys
  import opened Policies
  import opened Secrets
  import opened Streams

  datatype ServiceError<+E> = PermissionDenied | StoreError(error: E)

  // The key filters, as functions of the key alone.
  ghost function ListFilter(p: Policy, principal: string, ns: Namespace): Key -> bool {
    (k: Key) => Listable(p, principal, ns, k)
  }

  ghost function WatchFilter(p: Policy, principal: string, ns: Namespace): Key -> bool {
    (k: Key) => Visible(p, principal, ns, k)
  }

  // Service.List: `store` is what the backend's own List answers.
  method List<E>(p: Policy, principal: Option<string>, ns: Namespace, store: Result<seq<SecretMeta>, E>)
    returns (r: Result<seq<SecretMeta>, ServiceError<E>>)
    ensures principal.None? || !Overlaps(p, principal.value, "list", ns) ==> r == Err(PermissionDenied)
    ensures principal.Some? && Overlaps(p, principal.value, "list", ns) && store.Err? ==>
              r == Err(StoreError(store.error))
    ensures principal.Some? && Overlaps(p, principal.value, "list", ns) && store.Ok?
            ==> r == Ok(KeepMetas(store.value, ListFilter(p, principal.value, ns)))
  {
    if principal.None? {
      return Err(PermissionDenied);
    }
    var may := CanList(p, principal.value, ns);
    if !may {
      return Err(PermissionDenied);
    }
    if store.Err? {
      return Err(StoreError(store.error));
    }
    var metas := store.value;
    var visible := [];
    for i := 0 to |metas|
      invariant visible == KeepMetas(metas[..i], ListFilter(p, principal.value, ns))
    {
      var keyNS := metas[i].key.ns;
      assert metas[..i + 1][..i] == metas[..i];
      var under := ns.Contains(keyNS);
      if under {
        var allowed := Allows(p, principal.value, "list", keyNS);
        if allowed {
          visible := visible + [metas[i]];
        }
      }
    }
    assert metas[..|metas|] == metas;
    return Ok(visible);
  }

  method VisibleTo(p: Policy, principal: string, ns: Namespace, meta: SecretMeta) returns (ok: bool)
    ensures ok <==> WatchFilter(p, principal, ns)(meta.key)
  {
    ok := ns.Contains(meta.key.ns);
    if ok {
      ok := Allows(p, principal, "list", meta.key.ns);
    }
    if ok {
      ok := Allows(p, principal, "watch", meta.key.ns);
    }
  }

  // filterEvents over everything its source sends before closing: `out` is
  // what the subscriber received, `stopped` that the context ended a send.
  method FilterEvents(ctx: Context, p: Policy, principal: string, ns: Namespace, src: seq<Event>)
    returns (out: seq<Event>, stopped: bool)
    modifies ctx
    ensures (stopped || old(ctx.ended)) ==> ctx.ended
    ensures out <= Filtered(src, WatchFilter(p, principal, ns))
    ensures !stopped ==> out == Filtered(src, WatchFilter(p, principal, ns))
  {
    ghost var keep := WatchFilter(p, principal, ns);
    out, stopped := [], false;
    for i := 0 to |src|
      invariant !stopped && out == Filtered(src[..i], keep)
      invariant old(ctx.ended) ==> ctx.ended
    {
      var ev := src[i];
      assert src[..i + 1][..i] == src[..i];
      FilteredGrows(src, i, keep);
      if ev != InSync {
        var show := VisibleTo(p, principal, ns, ev.meta);
        if !show {
          continue;
        }
      }
      var taken := ctx.Select();
      if !taken {
        stopped := true;
        return;
      }
      out := out + [ev];
    }
    assert src[..|src|] == src;
  }

  // Service.Watch up to the subscription.
  method MayWatchNow(p: Policy, principal: Option<string>, ns: Namespace) returns (ok: bool)
    ensures ok <==> principal.Some? && MayWatch(p, principal.value, ns)
  {
    if principal.None? {
      return false;
    }
    ok := CanWatch(p, principal.value, ns);
  }

  // ---- what listing and watching agree on --------------------------------

  // The whole-run theorem in the service's terms: when everything sent has
  // been delivered, the subscriber's replica holds the versions Service.List
  // would show for the last good listing, less keys it may not watch.
  lemma WatchShowsWhatListShows(p: Policy, principal: string, ns: Namespace,
                                snapshot: seq<SecretMeta>, polls: seq<Poll>)
    ensures var listed := KeepMetas(LastGood(snapshot, polls), ListFilter(p, principal, ns));
            Versions(Replay(Filtered(RunEvents(snapshot, polls), WatchFilter(p, principal, ns))))
            == Versions(Latest(KeepMetas(listed, (k: Key) => Allowed(p, principal, "watch", k.ns))))
  {
    var watch := (k: Key) => Allowed(p, principal, "watch", k.ns);
    FilteredReplayMatches(snapshot, polls, WatchFilter(p, principal, ns));
    KeepKept(LastGood(snapshot, polls), ListFilter(p, principal, ns), watch, WatchFilter(p, principal, ns));
  }

  // A backend's List over a fixed store.
  ghost function StoreList(store: seq<SecretMeta>, ns: Namespace): seq<SecretMeta> {
    KeepMetas(store, (k: Key) => ns.Encloses(k.ns))
  }

  ghost function Shown(p: Policy, principal: string, ns: Namespace, store: seq<SecretMeta>): seq<SecretMeta> {
    KeepMetas(StoreList(store, ns), ListFilter(p, principal, ns))
  }

  // Listing a namespace shows what listing any namespace above it shows
  // there; being allowed below implies being allowed above; and where listing
  // below is denied, listing above shows nothing from there.
  lemma ListingCoherent(p: Policy, principal: string, above: Namespace, below: Namespace, store: seq<SecretMeta>)
    requires above.Encloses(below)
    ensures Shown(p, principal, below, store)
            == KeepMetas(Shown(p, principal, above, store), (k: Key) => below.Encloses(k.ns))
    ensures Overlaps(p, principal, "list", below) ==> Overlaps(p, principal, "list", above)
    ensures !Overlaps(p, principal, "list", below)
            ==> KeepMetas(Shown(p, principal, above, store), (k: Key) => below.Encloses(k.ns)) == []
  {
    var under := (k: Key) => below.Encloses(k.ns);
    var low, high := ListFilter(p, principal, below), ListFilter(p, principal, above);
    forall k: Key ensures low(k) <==> high(k) && under(k) {
      EnclosesIsForest(above, below, k.ns);
    }
    KeepKept(store, under, low, low);
    KeepKept(store, (k: Key) => above.Encloses(k.ns), high, high);
    KeepKept(store, high, under, low);
    if Overlaps(p, principal, "list", below) {
      var r :| r in RulesOf(p, principal) && "list" in r.actions && Comparable(r.ns, below);
      EnclosesIsForest(r.ns, above, below);
      EnclosesIsForest(above, below, r.ns);
    } else {
      forall k: Key ensures !low(k) {
        NothingListable(p, principal, below, k);
      }
      KeepNone(store, low);
    }
  }

  lemma NothingListable(p: Policy, principal: string, ns: Namespace, k: Key)
    requires !Overlaps(p, principal, "list", ns)
    ensures !Listable(p, principal, ns, k)
  {
    if Listable(p, principal, ns, k) {
      var r :| r in RulesOf(p, principal) && Grants(r, "list", k.ns);
      EnclosesIsForest(r.ns, ns, k.ns);
      assert false;
    }
  }

  lemma {:induction false} KeepNone(ms: seq<SecretMeta>, keep: Key -> bool)
    requires forall k: Key :: !keep(k)
    ensures KeepMetas(ms, keep) == []
  {
    if ms != [] {
      KeepNone(ms[..|ms| - 1], keep);
    }
  }
}
