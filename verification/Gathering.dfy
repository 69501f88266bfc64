/** A paged walk that keeps at most one result per entry and stops at the first
    entry that fails. */
module Gathering {
  import opened Outcomes

  function Flatten<E>(pages: seq<seq<E>>): seq<E> {
    if pages == [] then [] else Flatten(pages[..|pages| - 1]) + pages[|pages| - 1]
  }

  function Appended<M, X>(front: Result<seq<M>, X>, more: Result<Option<M>, X>): Result<seq<M>, X> {
    match (front, more)
    case (Err(e), _) => Err(e)
    case (_, Err(e)) => Err(e)
    case (Ok(out), Ok(None)) => Ok(out)
    case (Ok(out), Ok(Some(m))) => Ok(out + [m])
  }

  function Gather<E, M, X>(entry: E -> Result<Option<M>, X>, es: seq<E>): Result<seq<M>, X> {
    if es == [] then Ok([])
    else Appended(Gather(entry, es[..|es| - 1]), entry(es[|es| - 1]))
  }

  lemma GatherExtends<E, M, X>(entry: E -> Result<Option<M>, X>, front: seq<E>, e: E)
    ensures Gather(entry, front + [e]) == Appended(Gather(entry, front), entry(e))
  {
    assert (front + [e])[..|front|] == front;
  }

  lemma GatherOne<E, M, X>(entry: E -> Result<Option<M>, X>, e: E, m: M)
    requires entry(e) == Ok(Some(m))
    ensures Gather(entry, [e]) == Ok([m])
  {
    GatherExtends(entry, [], e);
    assert [] + [e] == [e] && [] + [m] == [m];
  }

  lemma GatherTwo<E, M, X>(entry: E -> Result<Option<M>, X>, e: E, f: E, m: M, n: M)
    requires entry(e) == Ok(Some(m)) && entry(f) == Ok(Some(n))
    ensures Gather(entry, [e, f]) == Ok([m, n])
  {
    GatherOne(entry, e, m);
    GatherExtends(entry, [e], f);
    assert [e] + [f] == [e, f] && [m] + [n] == [m, n];
  }

  lemma {:induction false} GatherFails<E, M, X>(entry: E -> Result<Option<M>, X>, front: seq<E>, rest: seq<E>)
    requires Gather(entry, front).Err?
    ensures Gather(entry, front + rest) == Gather(entry, front)
  {
    if rest == [] {
      assert front + rest == front;
    } else {
      var init, last := rest[..|rest| - 1], rest[|rest| - 1];
      GatherFails(entry, front, init);
      assert front + rest == front + init + [last];
      GatherExtends(entry, front + init, last);
    }
  }

  lemma GatherStep<E, M, X>(entry: E -> Result<Option<M>, X>, front: seq<E>, page: seq<E>, j: nat)
    requires j < |page|
    ensures Gather(entry, front + page[..j + 1]) == Appended(Gather(entry, front + page[..j]), entry(page[j]))
  {
    assert front + page[..j + 1] == front + page[..j] + [page[j]];
    GatherExtends(entry, front + page[..j], page[j]);
  }

  lemma GatherStops<E, M, X>(entry: E -> Result<Option<M>, X>, front: seq<E>, page: seq<E>, j: nat)
    requires j <= |page| && Gather(entry, front + page[..j]).Err?
    ensures Gather(entry, front + page) == Gather(entry, front + page[..j])
  {
    assert front + page == front + page[..j] + page[j..];
    GatherFails(entry, front + page[..j], page[j..]);
  }

  lemma {:induction false} FlattenPrefix<E>(pages: seq<seq<E>>, i: nat)
    requires i <= |pages|
    ensures Flatten(pages[..i]) <= Flatten(pages)
    decreases |pages| - i
  {
    if i < |pages| {
      FlattenPrefix(pages, i + 1);
      assert pages[..i + 1][..i] == pages[..i];
    } else {
      assert pages[..i] == pages;
    }
  }

  lemma {:induction false} GatherErrors<E, M, X>(entry: E -> Result<Option<M>, X>, es: seq<E>, x: X)
    requires forall e :: e in es && entry(e).Err? ==> entry(e).error == x
    ensures Gather(entry, es).Err? <==> exists e :: e in es && entry(e).Err?
    ensures Gather(entry, es).Err? ==> Gather(entry, es).error == x
  {
    if es != [] {
      var front, last := es[..|es| - 1], es[|es| - 1];
      assert es == front + [last];
      assert last in es && forall e :: e in front ==> e in es;
      GatherErrors(entry, front, x);
    }
  }

  // A walk fails exactly when some entry does; otherwise its results are
  // exactly what the entries give.
  lemma {:induction false} GatherMembers<E, M, X>(entry: E -> Result<Option<M>, X>, es: seq<E>, m: M)
    ensures Gather(entry, es).Err? <==> exists e :: e in es && entry(e).Err?
    ensures Gather(entry, es).Ok? ==>
              (m in Gather(entry, es).value <==> exists e :: e in es && entry(e) == Ok(Some(m)))
  {
    if es != [] {
      var front, last := es[..|es| - 1], es[|es| - 1];
      GatherMembers(entry, front, m);
      assert es == front + [last];
      assert last in es;
    }
  }
}
