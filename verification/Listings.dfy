/** Listing against reading, for any store that keeps secrets under encoded
    names: when what it lists is what it can read. */
module Listings {
  import opened Outcomes
  import opened Keys
  import opened Secrets
  import opened Sorting

  // What each name adds to a listing, in the order of the names.
  function Chosen(entry: string -> Option<SecretMeta>, names: seq<string>): seq<SecretMeta> {
    if names == [] then []
    else
      var front, m := Chosen(entry, names[..|names| - 1]), entry(names[|names| - 1]);
      if m.Some? then front + [m.value] else front
  }

  // Strictly sorted, and exactly what can be read under ns, as it reads.
  ghost predicate Agrees(get: Key -> Option<SecretMeta>, ns: Namespace, out: seq<SecretMeta>) {
    && StrictlyBy(out, NameOf)
    && (forall m :: m in out ==> ns.Encloses(m.key.ns) && get(m.key) == Some(m))
    && (forall k: Key, m :: ns.Encloses(k.ns) && get(k) == Some(m) ==> m in out)
  }

  // A secret is read from the one name its key is stored under, and then
  // that name is listed just as it reads.
  ghost predicate Coherent(entry: string -> Option<SecretMeta>, get: Key -> Option<SecretMeta>,
                           own: Key -> Option<string>, ns: Namespace, names: set<string>) {
    && (forall n :: n in names && entry(n).Some? ==> ns.Encloses(entry(n).value.key.ns))
    && (forall k: Key :: get(k).Some? && ns.Encloses(k.ns) ==>
          own(k).Some? && own(k).value in names && entry(own(k).value) == get(k) && get(k).value.key == k)
  }

  // Every listed name is its key's own, and the key can be read.
  ghost predicate Proper(entry: string -> Option<SecretMeta>, get: Key -> Option<SecretMeta>,
                         own: Key -> Option<string>, names: set<string>) {
    forall n :: n in names && entry(n).Some? ==> own(entry(n).value.key) == Some(n) && get(entry(n).value.key).Some?
  }

  lemma {:induction false} ChosenMembers(entry: string -> Option<SecretMeta>, names: seq<string>, m: SecretMeta)
    ensures m in Chosen(entry, names) <==> exists n :: n in names && entry(n) == Some(m)
  {
    if names != [] {
      ChosenMembers(entry, names[..|names| - 1], m);
      assert names == names[..|names| - 1] + [names[|names| - 1]];
    }
  }

  lemma {:induction false} ChosenDistinct(entry: string -> Option<SecretMeta>, own: Key -> Option<string>,
                                          names: seq<string>)
    requires forall n :: n in names && entry(n).Some? ==> own(entry(n).value.key) == Some(n)
    requires forall i, j :: 0 <= i < j < |names| ==> names[i] != names[j]
    ensures NamesDiffer(Chosen(entry, names), NameOf)
  {
    if names != [] {
      var front, last := names[..|names| - 1], names[|names| - 1];
      ChosenDistinct(entry, own, front);
      if entry(last).Some? {
        var out, m := Chosen(entry, front), entry(last).value;
        forall i | 0 <= i < |out| ensures NameOf(out[i]) != NameOf(m) {
          ChosenMembers(entry, front, out[i]);
          if NameOf(out[i]) == NameOf(m) {
            StringInjective(out[i].key, m.key);
          }
        }
      }
    }
  }

  // Two names of one key make the listing repeat it.
  lemma {:induction false} ChosenRepeats(entry: string -> Option<SecretMeta>, names: seq<string>, a: string, b: string)
    requires a in names && b in names && a != b && entry(a).Some? && entry(b).Some?
    requires entry(a).value.key == entry(b).value.key
    ensures !NamesDiffer(Chosen(entry, names), NameOf)
  {
    var front, last := names[..|names| - 1], names[|names| - 1];
    assert names == front + [last];
    var all, out := Chosen(entry, names), Chosen(entry, front);
    if a in front && b in front {
      ChosenRepeats(entry, front, a, b);
      var i, j :| 0 <= i < j < |out| && NameOf(out[i]) == NameOf(out[j]);
      assert all[i] == out[i] && all[j] == out[j];
    } else {
      var c := if last == a then b else a;
      ChosenMembers(entry, front, entry(c).value);
      var i :| 0 <= i < |out| && out[i] == entry(c).value;
      assert all[i] == out[i] && all[|out|] == entry(last).value;
    }
  }

  // A sorted listing agrees with reading exactly when every listed name is
  // its key's own name and can be read.
  lemma {:induction false} AgreesIffProper(entry: string -> Option<SecretMeta>, get: Key -> Option<SecretMeta>,
                                           own: Key -> Option<string>, ns: Namespace,
                                           names: seq<string>, out: seq<SecretMeta>)
    requires Coherent(entry, get, own, ns, Members(names))
    requires Enumerates(names, Members(names))
    requires SortedBy(out, NameOf) && multiset(out) == multiset(Chosen(entry, names))
    ensures Agrees(get, ns, out) <==> Proper(entry, get, own, Members(names))
  {
    StrictIffNamesDiffer(out, NameOf);
    forall m ensures m in out <==> exists n :: n in names && entry(n) == Some(m) {
      ChosenMembers(entry, names, m);
      assert m in out <==> m in multiset(out);
    }
    if Proper(entry, get, own, Members(names)) {
      ProperAgrees(entry, get, own, ns, names, out);
    }
    if Agrees(get, ns, out) {
      NamesDifferPermutes(out, Chosen(entry, names), NameOf);
      forall n | n in names && entry(n).Some?
        ensures own(entry(n).value.key) == Some(n) && get(entry(n).value.key).Some?
      {
        var m := entry(n).value;
        assert m in out;
        var home := own(m.key).value;
        assert home in Members(names);
        if home != n {
          ChosenRepeats(entry, names, n, home);
          assert false;
        }
      }
    }
  }

  lemma ProperAgrees(entry: string -> Option<SecretMeta>, get: Key -> Option<SecretMeta>,
                     own: Key -> Option<string>, ns: Namespace, names: seq<string>, out: seq<SecretMeta>)
    requires Coherent(entry, get, own, ns, Members(names)) && Proper(entry, get, own, Members(names))
    requires Enumerates(names, Members(names))
    requires SortedBy(out, NameOf) && multiset(out) == multiset(Chosen(entry, names))
    requires forall m :: m in out <==> exists n :: n in names && entry(n) == Some(m)
    ensures Agrees(get, ns, out)
  {
    ChosenDistinct(entry, own, names);
    NamesDifferPermutes(Chosen(entry, names), out, NameOf);
    StrictIffNamesDiffer(out, NameOf);
    forall m | m in out ensures ns.Encloses(m.key.ns) && get(m.key) == Some(m) {
      var n :| n in names && entry(n) == Some(m);
      assert n in Members(names);
    }
    forall k: Key, m | ns.Encloses(k.ns) && get(k) == Some(m) ensures m in out {
      var n := own(k).value;
      assert n in Members(names) && entry(n) == Some(m);
    }
  }
}
