/** Secret metadata and the change events a watch delivers. */
module Secrets {
  import opened Keys

  // Versions are opaque: only equality means anything.
  datatype SecretMeta = SecretMeta(key: Key, version: string, createdAt: int)

  // An InSync event carries no metadata.
  datatype Event = Added(meta: SecretMeta) | Updated(meta: SecretMeta) | Deleted(meta: SecretMeta) | InSync

  function NameOf(m: SecretMeta): string {
    m.key.String()
  }

  // Metadata filed under key strings.
  type Table = map<string, SecretMeta>

  ghost predicate Indexed(t: Table) {
    forall s :: s in t ==> NameOf(t[s]) == s
  }

  ghost function Versions(t: Table): map<string, string> {
    map s | s in t :: t[s].version
  }

  ghost function Names(ms: seq<SecretMeta>): set<string> {
    set m | m in ms :: NameOf(m)
  }

  lemma NamesExtend(ms: seq<SecretMeta>, m: SecretMeta)
    ensures Names(ms + [m]) == Names(ms) + {NameOf(m)}
  {}

  // A snapshot as a table; the last entry for a key wins.
  ghost function Latest(ms: seq<SecretMeta>): (t: Table)
    ensures Indexed(t) && t.Keys == Names(ms)
  {
    if ms == [] then map[]
    else
      var front, m := ms[..|ms| - 1], ms[|ms| - 1];
      assert ms == front + [m];
      Latest(front)[NameOf(m) := m]
  }

  // The entries of a table, or of a snapshot, whose keys satisfy `keep`.
  ghost function Restrict(t: Table, keep: Key -> bool): Table {
    map s | s in t && keep(t[s].key) :: t[s]
  }

  ghost function KeepMetas(ms: seq<SecretMeta>, keep: Key -> bool): seq<SecretMeta> {
    if ms == [] then []
    else
      var front := KeepMetas(ms[..|ms| - 1], keep);
      if keep(ms[|ms| - 1].key) then front + [ms[|ms| - 1]] else front
  }

  lemma SameNameSameKey(t: Table, m: SecretMeta)
    requires Indexed(t)
    ensures NameOf(m) in t ==> t[NameOf(m)].key == m.key
  {
    if NameOf(m) in t {
      StringInjective(t[NameOf(m)].key, m.key);
    }
  }

  lemma RestrictPut(t: Table, m: SecretMeta, keep: Key -> bool)
    requires Indexed(t)
    ensures Restrict(t[NameOf(m) := m], keep)
            == if keep(m.key) then Restrict(t, keep)[NameOf(m) := m] else Restrict(t, keep)
  {
    SameNameSameKey(t, m);
  }

  lemma RestrictDrop(t: Table, m: SecretMeta, keep: Key -> bool)
    requires Indexed(t)
    ensures Restrict(t - {NameOf(m)}, keep)
            == if keep(m.key) then Restrict(t, keep) - {NameOf(m)} else Restrict(t, keep)
  {
    SameNameSameKey(t, m);
  }

  lemma RestrictLookup(t: Table, m: SecretMeta, keep: Key -> bool)
    requires Indexed(t) && keep(m.key)
    ensures NameOf(m) in Restrict(t, keep) <==> NameOf(m) in t
    ensures NameOf(m) in t ==> Restrict(t, keep)[NameOf(m)] == t[NameOf(m)]
  {
    SameNameSameKey(t, m);
  }

  lemma RestrictVersions(t: Table, u: Table, keep: Key -> bool)
    requires Indexed(t) && Indexed(u) && Versions(t) == Versions(u)
    ensures Versions(Restrict(t, keep)) == Versions(Restrict(u, keep))
  {
    assert t.Keys == Versions(t).Keys == Versions(u).Keys == u.Keys;
    forall s | s in t ensures t[s].key == u[s].key && t[s].version == u[s].version {
      assert Versions(t)[s] == Versions(u)[s];
      StringInjective(t[s].key, u[s].key);
    }
  }

  // Filtering a snapshot filters its table.
  lemma {:induction false} LatestOfKept(ms: seq<SecretMeta>, keep: Key -> bool)
    ensures Latest(KeepMetas(ms, keep)) == Restrict(Latest(ms), keep)
  {
    if ms == [] {
      assert Restrict(map[], keep) == map[];
    } else {
      var front, m := ms[..|ms| - 1], ms[|ms| - 1];
      LatestOfKept(front, keep);
      RestrictPut(Latest(front), m, keep);
      LatestExtends(KeepMetas(front, keep), m);
    }
  }

  lemma LatestExtends(ms: seq<SecretMeta>, m: SecretMeta)
    ensures Latest(ms + [m]) == Latest(ms)[NameOf(m) := m]
  {
    assert (ms + [m])[..|ms|] == ms;
  }

  lemma {:induction false} KeepKept(ms: seq<SecretMeta>, f: Key -> bool, g: Key -> bool, both: Key -> bool)
    requires forall k :: both(k) <==> f(k) && g(k)
    ensures KeepMetas(KeepMetas(ms, f), g) == KeepMetas(ms, both)
  {
    if ms != [] {
      KeepKept(ms[..|ms| - 1], f, g, both);
      var kept := KeepMetas(ms[..|ms| - 1], f);
      assert (kept + [ms[|ms| - 1]])[..|kept|] == kept;
    }
  }
}
