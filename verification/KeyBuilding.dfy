/** NewKey: what joining a namespace and a name, then parsing, can produce. */
module KeyBuilding {
  import opened Outcomes
  import opened Text
  import opened Keys

  lemma Regroup(a: string, b: string, c: string, d: string, e: string)
    ensures a + b + c + d + e == a + b + (c + d + e)
  {}

  lemma HeadFirst(parts: seq<string>, more: seq<string>)
    requires parts != []
    ensures parts + more == [parts[0]] + (parts[1..] + more)
  {}

  lemma {:induction false} SplitAfterJoin(parts: seq<string>, s: string, c: char)
    requires parts != [] && forall p :: p in parts ==> c !in p
    ensures Split(Join(parts, c) + [c] + s, c) == parts + Split(s, c)
  {
    if |parts| == 1 {
      SplitSegment(parts[0], s, c);
      assert parts == [parts[0]];
    } else {
      SplitAfterJoin(parts[1..], s, c);
      var p, joined := parts[0], Join(parts[1..], c);
      Regroup(p, [c], joined, [c], s);
      SplitSegment(p, joined + [c] + s, c);
      HeadFirst(parts, Split(s, c));
    }
  }

  lemma SegmentsHaveNoSlash(ns: Namespace)
    requires ns.Valid()
    ensures forall p :: p in ns.segments ==> '/' !in p && p != ""
  {}

  lemma {:induction false} SplitSlashes(n: nat)
    ensures |Split(Slashes(n), '/')| == n + 1 && forall i :: 0 <= i <= n ==> Split(Slashes(n), '/')[i] == ""
  {
    if n > 0 {
      SplitSlashes(n - 1);
      SplitSegment("", Slashes(n - 1), '/');
      assert Slashes(n) == "" + ['/'] + Slashes(n - 1);
    }
  }

  // parts[b] is the name, every other part is empty.
  predicate OneName(parts: seq<string>, b: nat, name: string) {
    && b < |parts| && parts[b] == name
    && forall i :: 0 <= i < |parts| && i != b ==> parts[i] == ""
  }

  lemma SplitTrailing(name: string, c: nat)
    requires '/' !in name
    ensures var parts := Split(name + Slashes(c), '/'); |parts| == 1 + c && OneName(parts, 0, name)
  {
    if c == 0 {
      assert name + Slashes(c) == name;
      SplitSegment(name, "", '/');
    } else {
      assert name + Slashes(c) == name + ['/'] + Slashes(c - 1);
      SplitSegment(name, Slashes(c - 1), '/');
      SplitSlashes(c - 1);
    }
  }

  lemma OneNameShifts(parts: seq<string>, b: nat, name: string)
    requires OneName(parts, b, name)
    ensures OneName([""] + parts, b + 1, name)
  {
    forall i | 0 <= i < |parts| + 1 && i != b + 1 ensures ([""] + parts)[i] == "" {
      assert i > 0 ==> ([""] + parts)[i] == parts[i - 1];
    }
  }

  // The parts of a padded name: empty ones before it and after it.
  lemma {:induction false} SplitPadded(b: nat, name: string, c: nat)
    requires '/' !in name
    ensures var parts := Split(Slashes(b) + name + Slashes(c), '/'); |parts| == b + 1 + c && OneName(parts, b, name)
    decreases b
  {
    if b > 0 {
      SplitPadded(b - 1, name, c);
      var rest := Slashes(b - 1) + name + Slashes(c);
      assert Slashes(b) + name + Slashes(c) == "" + ['/'] + rest;
      SplitSegment("", rest, '/');
      OneNameShifts(Split(rest, '/'), b - 1, name);
    } else {
      assert Slashes(0) + name + Slashes(c) == name + Slashes(c);
      SplitTrailing(name, c);
    }
  }

  lemma SpellingStart(s: string, k: Key, a: nat, b: nat, c: nat)
    requires SpellsWith(s, k, a, b, c)
    ensures a == 0 || s[0] == '/'
  {}

  lemma Spelled(front: string, b: nat, tail: string)
    requires b > 0
    ensures front + Slashes(b) + tail == front + "/" + (Slashes(b - 1) + tail)
  {
    assert Slashes(b) == "/" + Slashes(b - 1);
  }

  lemma BuiltSpelling(ns: Namespace, name: string, k: Key) returns (b: nat, c: nat)
    requires ns.Valid() && NewKey(ns, name) == Ok(k)
    ensures ns.String() + "/" + name == k.ns.String() + "/" + (Slashes(b) + k.name + Slashes(c))
  {
    var s := ns.String() + "/" + name;
    ParseKeyDecides(s, k);
    var a: nat, b': nat, c': nat :| SpellsWith(s, k, a, b', c');
    ValidNamespaceSpelling(ns);
    SpellingStart(s, k, a, b', c');
    b, c := b' - 1, c';
    Spelled(k.ns.String(), b', k.name + Slashes(c));
    assert s == k.ns.String() + Slashes(b') + (k.name + Slashes(c));
    assert Slashes(b) + (k.name + Slashes(c)) == Slashes(b) + k.name + Slashes(c);
  }

  // Both spellings of a built key, cut at the slashes.
  lemma BuiltParts(ns: Namespace, name: string, k: Key) returns (b: nat, c: nat)
    requires ns.Valid() && NewKey(ns, name) == Ok(k)
    ensures ns.segments + Split(name, '/') == k.ns.segments + Split(Slashes(b) + k.name + Slashes(c), '/')
    ensures ns.String() + "/" + name == k.ns.String() + "/" + (Slashes(b) + k.name + Slashes(c))
  {
    b, c := BuiltSpelling(ns, name, k);
    SegmentsHaveNoSlash(ns);
    SegmentsHaveNoSlash(k.ns);
    SplitAfterJoin(ns.segments, name, '/');
    SplitAfterJoin(k.ns.segments, Slashes(b) + k.name + Slashes(c), '/');
  }

  lemma {:induction false} EmptyPartsAreSlashes(parts: seq<string>)
    requires parts != [] && forall p :: p in parts ==> p == ""
    ensures Join(parts, '/') == Slashes(|parts| - 1)
  {
    if |parts| > 1 {
      assert forall p :: p in parts[1..] ==> p in parts;
      EmptyPartsAreSlashes(parts[1..]);
      assert parts[0] in parts;
      assert "" + ['/'] + Join(parts[1..], '/') == "/" + Slashes(|parts| - 2);
    } else {
      assert parts[0] in parts;
    }
  }

  lemma TrimSlashes(n: nat)
    ensures Trim(Slashes(n), '/') == ""
  {
    TrimLeftOf(n, "", '/');
    assert Slashes(n) + "" == Slashes(n);
  }

  // Of two sequences with a common extension, one begins the other.
  lemma Overhang(p: seq<string>, xs: seq<string>, q: seq<string>, ys: seq<string>)
    requires p + xs == q + ys && !(p <= q)
    ensures |q| < |p| && q == p[..|q|]
    ensures forall j :: |q| <= j < |p| ==> j - |q| < |ys| && p[j] == ys[j - |q|]
    ensures |p| + |xs| == |q| + |ys| && forall i :: 0 <= i < |xs| ==> xs[i] == ys[|p| - |q| + i]
  {
    var all := p + xs;
    assert forall j :: 0 <= j < |p| ==> all[j] == p[j];
    assert forall j :: |p| <= j < |all| ==> all[j] == xs[j - |p|];
    assert forall j :: 0 <= j < |q| ==> all[j] == q[j];
    assert forall j :: |q| <= j < |all| ==> all[j] == ys[j - |q|];
    forall i | 0 <= i < |xs| ensures xs[i] == ys[|p| - |q| + i] {
      assert all[|p| + i] == xs[i];
    }
  }

  // A built key that escapes its namespace was built from slashes alone.
  lemma EscapesOnlyWithoutName(ns: Namespace, name: string, k: Key)
    requires ns.Valid() && NewKey(ns, name) == Ok(k) && !ns.Encloses(k.ns)
    ensures Trim(name, '/') == ""
  {
    var b, c := BuiltParts(ns, name, k);
    var xs, ys := Split(name, '/'), Split(Slashes(b) + k.name + Slashes(c), '/');
    assert '/' !in k.name;
    SplitPadded(b, k.name, c);
    SegmentsHaveNoSlash(ns);
    Overhang(ns.segments, xs, k.ns.segments, ys);
    var l, m := |ns.segments|, |k.ns.segments|;
    assert ns.segments[m] == ys[0] && ns.segments[m] in ns.segments;
    assert ns.segments[l - 1] == ys[l - 1 - m] && ns.segments[l - 1] in ns.segments;
    assert b == 0 && l - 1 == m;
    assert forall i :: 0 <= i < |xs| ==> xs[i] == ys[1 + i];
    EmptyPartsAreSlashes(xs);
    JoinSplit(name, '/');
    TrimSlashes(|xs| - 1);
  }

  lemma {:induction false} LongerJoin(a: seq<string>, b: seq<string>)
    requires a <= b
    ensures |Join(a, '/')| <= |Join(b, '/')|
  {
    if a != [] {
      LongerJoin(a[1..], b[1..]);
    }
  }

  // A built key, its padding trimmed, is spelled by what was given.
  lemma BuiltTrims(ns: Namespace, name: string, k: Key)
    requires ns.Valid() && NewKey(ns, name) == Ok(k)
    ensures |Trim(ns.String() + "/" + name, '/')| > |k.ns.String()|
  {
    var b, c := BuiltParts(ns, name, k);
    ValidNamespaceSpelling(k.ns);
    var core := k.ns.String() + "/" + Slashes(b) + k.name;
    assert ns.String() + "/" + name == Slashes(0) + core + Slashes(c);
    assert k.name[|k.name| - 1] in k.name;
    TrimOf(0, core, c, '/');
  }

  lemma NamelessTrims(ns: Namespace, name: string)
    requires ns.Valid() && Trim(name, '/') == ""
    ensures Trim(ns.String() + "/" + name, '/') == ns.String()
  {
    var a, d := TrimCuts(name, '/');
    TimesAdds("/", a, d);
    assert name == Slashes(a + d);
    assert Slashes(1 + a + d) == "/" + name;
    ValidNamespaceSpelling(ns);
    TrimOf(0, ns.String(), 1 + a + d, '/');
    assert ns.String() + "/" + name == Slashes(0) + ns.String() + Slashes(1 + a + d);
  }

  lemma NamelessEscapes(ns: Namespace, name: string, k: Key)
    requires ns.Valid() && NewKey(ns, name) == Ok(k) && Trim(name, '/') == ""
    ensures !ns.Encloses(k.ns)
  {
    BuiltTrims(ns, name, k);
    NamelessTrims(ns, name);
    if ns.Encloses(k.ns) {
      LongerJoin(ns.segments, k.ns.segments);
    }
  }

  // NewKey stays beneath the namespace it was given exactly when the name is
  // not empty or made of slashes.
  lemma NewKeyStaysBeneath(ns: Namespace, name: string, k: Key)
    requires ns.Valid() && NewKey(ns, name) == Ok(k)
    ensures ns.Encloses(k.ns) <==> Trim(name, '/') != ""
  {
    if !ns.Encloses(k.ns) {
      EscapesOnlyWithoutName(ns, name, k);
    }
    if Trim(name, '/') == "" {
      NamelessEscapes(ns, name, k);
    }
  }

  lemma SameFront(front: string, a: string, b: string)
    requires front + a == front + b
    ensures a == b
  {
    assert (front + a)[|front|..] == a && (front + b)[|front|..] == b;
  }

  lemma PaddedNameBuilds(ns: Namespace, k: Key, b: nat, c: nat)
    requires k.ns == ns
    ensures NewKey(ns, Slashes(b) + k.name + Slashes(c)) == Ok(k)
  {
    var name := Slashes(b) + k.name + Slashes(c);
    assert Slashes(b + 1) == "/" + Slashes(b);
    assert ns.String() + "/" + name == Slashes(0) + ns.String() + Slashes(b + 1) + k.name + Slashes(c);
    SpelledParses(ns.String() + "/" + name, k, 0, b + 1, c);
  }

  // NewKey gives the key it was asked for exactly when the name is that
  // key's, give or take slashes around it.
  lemma NewKeyExact(ns: Namespace, name: string, k: Key)
    requires k.ns == ns
    ensures NewKey(ns, name) == Ok(k) <==> exists b: nat, c: nat :: name == Slashes(b) + k.name + Slashes(c)
  {
    if NewKey(ns, name) == Ok(k) {
      var b, c := BuiltParts(ns, name, k);
      SameFront(ns.String() + "/", name, Slashes(b) + k.name + Slashes(c));
    }
    if b: nat, c: nat :| name == Slashes(b) + k.name + Slashes(c) {
      PaddedNameBuilds(ns, k, b, c);
    }
  }

  // With no name at all, the last segment becomes the name.
  lemma NewKeyWithoutName(ns: Namespace, seg: string)
    requires ns.Valid() && |ns.segments| < MAX_NAMESPACE_DEPTH && ValidSegment(seg)
    ensures NewKey(Namespace(ns.segments + [seg]), "") == Ok(Key(ns, seg))
  {
    var k: Key := Key(ns, seg);
    JoinLast(ns.segments, seg);
    assert Slashes(1) == "/";
    SpelledParses(ns.String() + "/" + seg + "/", k, 0, 1, 1);
    assert ns.String() + ("/" + seg) + "/" + "" == ns.String() + "/" + seg + "/";
  }

  lemma {:induction false} JoinLast(parts: seq<string>, last: string)
    requires parts != []
    ensures Join(parts + [last], '/') == Join(parts, '/') + ("/" + last)
  {
    var all := parts + [last];
    assert all[1..] == parts[1..] + [last];
    if |parts| > 1 {
      JoinLast(parts[1..], last);
    }
  }
}
