/** `slices.SortFunc` with a comparison of names, and the ordered listing of a set. */
module Sorting {
  import opened Text

  ghost predicate SortedBy<T>(xs: seq<T>, name: T -> string) {
    forall i, j :: 0 <= i < j < |xs| ==> AtMost(name(xs[i]), name(xs[j]))
  }

  ghost predicate StrictlyBy<T>(xs: seq<T>, name: T -> string) {
    forall i, j :: 0 <= i < j < |xs| ==> Less(name(xs[i]), name(xs[j]))
  }

  function Insert<T>(x: T, xs: seq<T>, name: T -> string): (r: seq<T>) {
    if xs == [] || Less(name(x), name(xs[0])) then [x] + xs
    else [xs[0]] + Insert(x, xs[1..], name)
  }

  function Sort<T>(xs: seq<T>, name: T -> string): (r: seq<T>) {
    if xs == [] then [] else Insert(xs[0], Sort(xs[1..], name), name)
  }

  lemma AtMostTransitive(a: string, b: string, c: string)
    requires AtMost(a, b) && AtMost(b, c)
    ensures AtMost(a, c)
  {
    if Less(c, a) {
      LessTotal(a, b);
      if Less(a, b) {
        LessTransitive(c, a, b);
      }
    }
  }

  lemma LeastFirst<T>(x: T, xs: seq<T>, name: T -> string)
    requires SortedBy(xs, name) && (xs != [] ==> AtMost(name(x), name(xs[0])))
    ensures SortedBy([x] + xs, name)
  {
    forall j | 0 < j < |xs| ensures AtMost(name(x), name(xs[j])) {
      AtMostTransitive(name(x), name(xs[0]), name(xs[j]));
    }
  }

  lemma {:induction false} InsertSorts<T>(x: T, xs: seq<T>, name: T -> string)
    requires SortedBy(xs, name)
    ensures SortedBy(Insert(x, xs, name), name)
    ensures multiset(Insert(x, xs, name)) == multiset(xs) + multiset{x}
  {
    if xs == [] {
    } else if Less(name(x), name(xs[0])) {
      LessAsymmetric(name(x), name(xs[0]));
      LeastFirst(x, xs, name);
    } else {
      InsertSorts(x, xs[1..], name);
      assert xs == [xs[0]] + xs[1..];
      LeastFirst(xs[0], Insert(x, xs[1..], name), name);
    }
  }

  lemma {:induction false} SortSorts<T>(xs: seq<T>, name: T -> string)
    ensures SortedBy(Sort(xs, name), name)
    ensures multiset(Sort(xs, name)) == multiset(xs)
  {
    if xs != [] {
      SortSorts(xs[1..], name);
      InsertSorts(xs[0], Sort(xs[1..], name), name);
      assert xs == [xs[0]] + xs[1..];
    }
  }

  // ---- permutations and repeated names -----------------------------------

  ghost predicate NamesDiffer<T>(xs: seq<T>, name: T -> string) {
    forall i, j :: 0 <= i < j < |xs| ==> name(xs[i]) != name(xs[j])
  }

  lemma TwiceInBag<T>(xs: seq<T>, i: int, j: int)
    requires 0 <= i < j < |xs| && xs[i] == xs[j]
    ensures multiset(xs)[xs[i]] >= 2
  {
    assert xs == xs[..j] + [xs[j]] + xs[j + 1..];
    assert xs[i] in xs[..j];
    assert multiset(xs) == multiset(xs[..j]) + multiset{xs[j]} + multiset(xs[j + 1..]);
  }

  lemma {:induction false} OnceInBag<T>(xs: seq<T>, x: T)
    requires forall i, j :: 0 <= i < j < |xs| ==> xs[i] != xs[j]
    ensures multiset(xs)[x] <= 1
  {
    if xs != [] {
      OnceInBag(xs[1..], x);
      assert xs == [xs[0]] + xs[1..];
      if x == xs[0] {
        assert x !in xs[1..];
      }
    }
  }

  // A rearrangement repeats a name exactly when the original does.
  lemma NamesDifferPermutes<T>(xs: seq<T>, ys: seq<T>, name: T -> string)
    requires multiset(xs) == multiset(ys) && NamesDiffer(xs, name)
    ensures NamesDiffer(ys, name)
  {
    forall i, j | 0 <= i < j < |ys| ensures name(ys[i]) != name(ys[j]) {
      OnceInBag(xs, ys[i]);
      if ys[i] == ys[j] {
        TwiceInBag(ys, i, j);
        assert false;
      } else {
        assert ys[i] in multiset(ys) && ys[j] in multiset(ys);
        var p :| 0 <= p < |xs| && xs[p] == ys[i];
        var q :| 0 <= q < |xs| && xs[q] == ys[j];
        assert p < q || q < p;
      }
    }
  }

  lemma StrictIffNamesDiffer<T>(xs: seq<T>, name: T -> string)
    requires SortedBy(xs, name)
    ensures StrictlyBy(xs, name) <==> NamesDiffer(xs, name)
  {
    forall i, j | 0 <= i < j < |xs| ensures Less(name(xs[i]), name(xs[j])) <==> name(xs[i]) != name(xs[j]) {
      LessTotal(name(xs[i]), name(xs[j]));
      LessIrreflexive(name(xs[i]));
      assert AtMost(name(xs[i]), name(xs[j]));
    }
  }

  // ---- the strictly increasing listing of a finite set of strings --------

  ghost predicate Increasing(xs: seq<string>) {
    forall i, j :: 0 <= i < j < |xs| ==> Less(xs[i], xs[j])
  }

  ghost function Members<T>(xs: seq<T>): set<T> {
    set x | x in xs
  }

  ghost predicate Enumerates(xs: seq<string>, s: set<string>) {
    Members(xs) == s && forall i, j :: 0 <= i < j < |xs| ==> xs[i] != xs[j]
  }

  function Self(s: string): string { s }

  lemma SortIncreases(xs: seq<string>)
    requires forall i, j :: 0 <= i < j < |xs| ==> xs[i] != xs[j]
    ensures Increasing(Sort(xs, Self)) && Members(Sort(xs, Self)) == Members(xs)
  {
    var r := Sort(xs, Self);
    SortSorts(xs, Self);
    assert forall x :: x in r <==> x in multiset(r);
    assert forall x :: x in xs <==> x in multiset(xs);
    NamesDifferPermutes(xs, r, Self);
    StrictIffNamesDiffer(r, Self);
    assert forall i :: 0 <= i < |r| ==> Self(r[i]) == r[i];
  }

  lemma {:induction false} EnumerationExists(s: set<string>) returns (xs: seq<string>)
    ensures forall i, j :: 0 <= i < j < |xs| ==> xs[i] != xs[j]
    ensures Members(xs) == s
    decreases s
  {
    if s == {} {
      xs := [];
    } else {
      var x :| x in s;
      var rest := EnumerationExists(s - {x});
      assert x !in Members(rest);
      xs := [x] + rest;
      assert Members(xs) == {x} + Members(rest);
    }
  }

  ghost function InOrder(s: set<string>): (xs: seq<string>)
    ensures Increasing(xs) && Members(xs) == s
  {
    assert exists xs :: Increasing(xs) && Members(xs) == s by {
      var e := EnumerationExists(s);
      SortIncreases(e);
    }
    var xs :| Increasing(xs) && Members(xs) == s;
    xs
  }

  lemma {:induction false} IncreasingUnique(xs: seq<string>, ys: seq<string>)
    requires Increasing(xs) && Increasing(ys) && Members(xs) == Members(ys)
    ensures xs == ys
  {
    HeadMember(xs);
    HeadMember(ys);
    if xs != [] {
      FirstIsLeast(xs, ys);
      FirstIsLeast(ys, xs);
      LessTotal(xs[0], ys[0]);
      assert xs[0] == ys[0];
      TailMembers(xs);
      TailMembers(ys);
      IncreasingUnique(xs[1..], ys[1..]);
      assert xs == [xs[0]] + xs[1..] && ys == [ys[0]] + ys[1..];
    }
  }

  lemma HeadMember(xs: seq<string>)
    ensures xs != [] ==> xs[0] in Members(xs)
  {}

  lemma FirstIsLeast(xs: seq<string>, ys: seq<string>)
    requires xs != [] && ys != [] && Increasing(ys) && Members(xs) == Members(ys)
    ensures !Less(xs[0], ys[0])
  {
    assert xs[0] in Members(ys);
    var i :| 0 <= i < |ys| && ys[i] == xs[0];
    LessIrreflexive(ys[0]);
    if i > 0 {
      LessAsymmetric(ys[0], ys[i]);
    }
  }

  lemma TailMembers(xs: seq<string>)
    requires xs != [] && Increasing(xs)
    ensures Members(xs[1..]) == Members(xs) - {xs[0]}
  {
    forall j | 0 < j < |xs| ensures xs[j] != xs[0] {
      LessAsymmetric(xs[0], xs[j]);
    }
    assert xs == [xs[0]] + xs[1..];
  }
}
