/** Secret keys: `namespace/name`, their grammar, and the order of namespaces. */
module Keys {
  import opened Outcomes
  import opened Text

  const MAX_NAMESPACE_DEPTH := 8
  const MAX_SEGMENT_LEN := 63
  const MAX_NAME_LEN := 128

  datatype KeyError = InvalidKey | InvalidNamespace

  // ---- the two regular expressions as character predicates ---------------

  predicate LowerAlnum(c: char) {
    'a' <= c <= 'z' || '0' <= c <= '9'
  }

  predicate Alnum(c: char) {
    LowerAlnum(c) || 'A' <= c <= 'Z'
  }

  predicate SegmentMatches(s: string) {
    && s != ""
    && LowerAlnum(s[0]) && LowerAlnum(s[|s| - 1])
    && forall c :: c in s ==> LowerAlnum(c) || c == '-'
  }

  predicate NameMatches(s: string) {
    && s != ""
    && Alnum(s[0])
    && forall c :: c in s ==> Alnum(c) || c == '_' || c == '.' || c == '-'
  }

  predicate ValidSegment(s: string) {
    |s| <= MAX_SEGMENT_LEN && SegmentMatches(s)
  }

  predicate ValidName(s: string) {
    |s| <= MAX_NAME_LEN && NameMatches(s)
  }

  // ---- namespaces --------------------------------------------------------

  datatype Namespace = Namespace(segments: seq<string>) {
    function String(): string {
      Join(segments, '/')
    }

    predicate IsZero() {
      segments == []
    }

    // What ParseNamespace can return.
    predicate Valid() {
      && 1 <= |segments| <= MAX_NAMESPACE_DEPTH
      && forall s :: s in segments ==> ValidSegment(s)
    }

    // `other` is this namespace or lies beneath it.
    predicate Encloses(other: Namespace) {
      segments <= other.segments
    }

    function Parent(): Namespace {
      if |segments| <= 1 then Namespace([]) else Namespace(segments[..|segments| - 1])
    }

    // Namespace.Contains: the segment-by-segment scan.
    method Contains(other: Namespace) returns (r: bool)
      ensures r <==> Encloses(other)
    {
      if |other.segments| < |segments| {
        return false;
      }
      for i := 0 to |segments|
        invariant segments[..i] == other.segments[..i]
      {
        if other.segments[i] != segments[i] {
          assert segments[i] != other.segments[..|segments|][i];
          return false;
        }
      }
      assert segments == other.segments[..|segments|];
      return true;
    }
  }

  // Encloses is a partial order with the zero namespace at the top, and the
  // namespaces above any one namespace form a chain.
  lemma EnclosesIsForest(a: Namespace, b: Namespace, c: Namespace)
    ensures a.Encloses(a) && Namespace([]).Encloses(a)
    ensures a.Encloses(b) && b.Encloses(a) ==> a == b
    ensures a.Encloses(b) && b.Encloses(c) ==> a.Encloses(c)
    ensures a.Encloses(c) && b.Encloses(c) ==> a.Encloses(b) || b.Encloses(a)
    ensures a.Encloses(b) && a != b ==> a.Encloses(b.Parent())
  {
    if a.Encloses(b) && b.Encloses(a) {
      assert |a.segments| == |b.segments|;
      assert a.segments == b.segments;
    }
    if a.Encloses(b) && a != b {
      assert b.segments[..|b.segments|] == b.segments;
      assert a.segments <= b.segments[..|b.segments| - 1];
    }
  }

  function NamespaceFrom(s: string): Result<Namespace, KeyError> {
    var t := Trim(s, '/');
    if t == "" then Err(InvalidNamespace)
    else
      var segs := Split(t, '/');
      if |segs| > MAX_NAMESPACE_DEPTH then Err(InvalidNamespace)
      else if exists seg :: seg in segs && !ValidSegment(seg) then Err(InvalidNamespace)
      else Ok(Namespace(segs))
  }

  method ParseNamespace(s: string) returns (r: Result<Namespace, KeyError>)
    ensures r == NamespaceFrom(s)
  {
    var t := Trim(s, '/');
    if t == "" {
      return Err(InvalidNamespace);
    }
    var segs := Split(t, '/');
    if |segs| > MAX_NAMESPACE_DEPTH {
      return Err(InvalidNamespace);
    }
    for i := 0 to |segs|
      invariant forall j :: 0 <= j < i ==> ValidSegment(segs[j])
    {
      if |segs[i]| > MAX_SEGMENT_LEN || !SegmentMatches(segs[i]) {
        assert segs[i] in segs && !ValidSegment(segs[i]);
        return Err(InvalidNamespace);
      }
    }
    return Ok(Namespace(segs));
  }

  // ---- keys --------------------------------------------------------------

  datatype RawKey = Key(ns: Namespace, name: string) {
    // Key.IsZero cannot hold of a parsed key; String is the canonical form.
    function String(): string {
      if name == "" then "" else ns.String() + "/" + name
    }
  }

  // Outside its package a non-zero key can only come from ParseKey.
  type Key = k: RawKey | k.ns.Valid() && ValidName(k.name)
    witness Key(Namespace(["a"]), "A")

  function ParseKey(s: string): Result<Key, KeyError> {
    var t := Trim(s, '/');
    var i := LastIndex(t, '/');
    if i <= 0 || i == |t| - 1 then Err(InvalidKey)
    else
      match NamespaceFrom(t[..i])
      case Err(_) => Err(InvalidKey)
      case Ok(ns) =>
        var name := t[i + 1..];
        if |name| > MAX_NAME_LEN || !NameMatches(name) then Err(InvalidKey)
        else
          NamespaceFromValid(t[..i]);
          Ok(Key(ns, name))
  }

  function NewKey(ns: Namespace, name: string): Result<Key, KeyError> {
    ParseKey(ns.String() + "/" + name)
  }

  lemma NamespaceFromValid(s: string)
    ensures NamespaceFrom(s).Ok? ==> NamespaceFrom(s).value.Valid()
  {}

  // Whatever is wrong with a key, the error is InvalidKey; with a namespace,
  // InvalidNamespace.
  lemma ErrorsSayWhat(s: string)
    ensures ParseKey(s).Err? ==> ParseKey(s) == Err(InvalidKey)
    ensures NamespaceFrom(s).Err? ==> NamespaceFrom(s) == Err(InvalidNamespace)
  {}

  // ---- the language that parsing decides ---------------------------------

  function Slashes(n: nat): string {
    Times("/", n)
  }

  ghost predicate SpellsNamespace(s: string, ns: Namespace) {
    exists a: nat, b: nat :: s == Slashes(a) + ns.String() + Slashes(b)
  }

  // Slashes, segments joined by single slashes, one or more slashes, the
  // name, slashes.
  ghost predicate Spells(s: string, k: Key) {
    exists a: nat, b: nat, c: nat :: SpellsWith(s, k, a, b, c)
  }

  predicate SpellsWith(s: string, k: Key, a: nat, b: nat, c: nat) {
    b >= 1 && s == Slashes(a) + k.ns.String() + Slashes(b) + k.name + Slashes(c)
  }

  lemma {:induction false} JoinedSegments(segs: seq<string>)
    requires segs != [] && forall s :: s in segs ==> ValidSegment(s)
    ensures var j := Join(segs, '/');
            j != "" && LowerAlnum(j[0]) && LowerAlnum(j[|j| - 1])
            && forall c :: c in j ==> LowerAlnum(c) || c == '-' || c == '/'
  {
    if |segs| > 1 {
      JoinedSegments(segs[1..]);
      assert segs[0] in segs;
    } else {
      assert segs[0] in segs;
    }
  }

  lemma ValidNamespaceSpelling(ns: Namespace)
    requires ns.Valid()
    ensures var j := ns.String();
            j != "" && LowerAlnum(j[0]) && LowerAlnum(j[|j| - 1])
            && forall c :: c in j ==> LowerAlnum(c) || c == '-' || c == '/'
  {
    JoinedSegments(ns.segments);
  }

  // ParseNamespace accepts exactly the padded spellings of valid namespaces.
  lemma ParseNamespaceDecides(s: string, ns: Namespace)
    ensures NamespaceFrom(s) == Ok(ns) <==> ns.Valid() && SpellsNamespace(s, ns)
  {
    if ns.Valid() && SpellsNamespace(s, ns) {
      var a: nat, b: nat :| s == Slashes(a) + ns.String() + Slashes(b);
      ValidNamespaceSpelling(ns);
      TrimOf(a, ns.String(), b, '/');
      SplitJoin(ns.segments, '/');
    }
    if NamespaceFrom(s) == Ok(ns) {
      var a, b := TrimCuts(s, '/');
      JoinSplit(Trim(s, '/'), '/');
      assert s == Slashes(a) + ns.String() + Slashes(b);
    }
  }

  lemma LastSlash(front: string, name: string)
    requires '/' !in name
    ensures LastIndex(front + "/" + name, '/') == |front|
  {
    assert (front + "/" + name)[|front| + 1..] == name;
    LastIndexIs(front + "/" + name, '/', |front|);
  }

  lemma SpelledCore(k: Key, b: nat)
    requires b >= 1
    ensures var front := k.ns.String() + Slashes(b - 1);
            k.ns.String() + Slashes(b) + k.name == front + "/" + k.name
            && Bare(front + "/" + k.name, '/') && NamespaceFrom(front) == Ok(k.ns)
  {
    ValidNamespaceSpelling(k.ns);
    TimesAdds("/", b - 1, 1);
    assert Slashes(b) == Slashes(b - 1) + "/";
    assert k.name[|k.name| - 1] in k.name;
    var front := k.ns.String() + Slashes(b - 1);
    assert front == Slashes(0) + k.ns.String() + Slashes(b - 1);
    ParseNamespaceDecides(front, k.ns);
  }

  lemma SpelledParses(s: string, k: Key, a: nat, b: nat, c: nat)
    requires SpellsWith(s, k, a, b, c)
    ensures ParseKey(s) == Ok(k)
  {
    SpelledCore(k, b);
    ValidNamespaceSpelling(k.ns);
    var front := k.ns.String() + Slashes(b - 1);
    var t := front + "/" + k.name;
    assert s == Slashes(a) + t + Slashes(c);
    TrimOf(a, t, c, '/');
    LastSlash(front, k.name);
    assert t[..|front|] == front && t[|front| + 1..] == k.name;
  }

  lemma MergePadding(a: nat, a': nat, mid: string, b: nat)
    ensures Slashes(a) + (Slashes(a') + mid + Slashes(b) + "/") == Slashes(a + a') + mid + Slashes(b + 1)
  {
    TimesAdds("/", a, a');
    TimesAdds("/", b, 1);
    assert Slashes(1) == "/";
  }

  lemma ParsedIsSpelled(s: string, k: Key)
    requires ParseKey(s) == Ok(k)
    ensures Spells(s, k)
  {
    var a, c := TrimCuts(s, '/');
    var t := Trim(s, '/');
    var i := LastIndex(t, '/');
    var front := t[..i];
    assert t == front + "/" + k.name;
    ParseNamespaceDecides(front, k.ns);
    var a': nat, b: nat :| front == Slashes(a') + k.ns.String() + Slashes(b);
    MergePadding(a, a', k.ns.String(), b);
    assert s == Slashes(a) + (front + "/") + k.name + Slashes(c);
    assert SpellsWith(s, k, a + a', b + 1, c);
  }

  // ParseKey accepts exactly the spellings of valid keys, and tells which key.
  lemma ParseKeyDecides(s: string, k: Key)
    ensures ParseKey(s) == Ok(k) <==> Spells(s, k)
  {
    if Spells(s, k) {
      var a: nat, b: nat, c: nat :| SpellsWith(s, k, a, b, c);
      SpelledParses(s, k, a, b, c);
    }
    if ParseKey(s) == Ok(k) {
      ParsedIsSpelled(s, k);
    }
  }

  lemma CanonicalSpelling(k: Key)
    ensures SpellsWith(k.String(), k, 0, 1, 0)
  {
    assert Slashes(1) == "/";
    assert k.String() == Slashes(0) + k.ns.String() + Slashes(1) + k.name + Slashes(0);
  }

  // Printing then parsing is the identity.
  lemma ParsePrint(k: Key)
    ensures ParseKey(k.String()) == Ok(k)
  {
    CanonicalSpelling(k);
    SpelledParses(k.String(), k, 0, 1, 0);
  }

  lemma StringInjective(k1: Key, k2: Key)
    requires k1.String() == k2.String()
    ensures k1 == k2
  {
    ParsePrint(k1);
    ParsePrint(k2);
  }

  // Parsing then printing is an idempotent canonicalisation that removes only
  // slashes: it keeps the string exactly when no slash was superfluous.
  lemma PrintParse(s: string, k: Key)
    requires ParseKey(s) == Ok(k)
    ensures ParseKey(k.String()) == Ok(k)
    ensures |k.String()| <= |s|
    ensures |k.String()| == |s| <==> k.String() == s
  {
    ParsePrint(k);
    ParsedIsSpelled(s, k);
    var a: nat, b: nat, c: nat :| SpellsWith(s, k, a, b, c);
    if |k.String()| == |s| {
      CanonicalSpelling(k);
      assert a == 0 && b == 1 && c == 0;
    }
  }

  // ---- limits and alphabets ----------------------------------------------

  // A piece between slashes.
  predicate Piece(s: string) {
    s != "" && '/' !in s
  }

  lemma {:induction false} JoinedEnds(segs: seq<string>)
    requires segs != [] && forall s :: s in segs ==> Piece(s)
    ensures var j := Join(segs, '/'); j != "" && Bare(j, '/')
  {
    var first := segs[0];
    assert first in segs && first[0] in first && first[|first| - 1] in first;
    if |segs| > 1 {
      JoinedEnds(segs[1..]);
    }
  }

  lemma PiecesNamespace(segs: seq<string>)
    requires segs != [] && forall s :: s in segs ==> Piece(s)
    ensures NamespaceFrom(Join(segs, '/')).Ok? <==> |segs| <= 8 && forall s :: s in segs ==> ValidSegment(s)
  {
    JoinedEnds(segs);
    TrimBare(Join(segs, '/'), '/');
    SplitJoin(segs, '/');
  }

  lemma ParseKeyAt(t: string, i: nat)
    requires Trim(t, '/') == t && LastIndex(t, '/') == i && 0 < i < |t| - 1
    ensures ParseKey(t).Ok? <==> NamespaceFrom(t[..i]).Ok? && ValidName(t[i + 1..])
  {}

  lemma ParseKeyParts(front: string, name: string)
    requires front != "" && Bare(front, '/') && Piece(name)
    ensures ParseKey(front + "/" + name).Ok? <==> NamespaceFrom(front).Ok? && ValidName(name)
  {
    var t := front + "/" + name;
    assert name[|name| - 1] in name;
    TrimBare(t, '/');
    LastSlash(front, name);
    assert t[..|front|] == front && t[|front| + 1..] == name;
    ParseKeyAt(t, |front|);
  }

  // Pieces joined by slashes are a key exactly when there are at most eight
  // before the last, each a segment, and the last is a name.
  lemma PiecesKey(segs: seq<string>, name: string)
    requires segs != [] && (forall s :: s in segs ==> Piece(s)) && Piece(name)
    ensures ParseKey(Join(segs, '/') + "/" + name).Ok?
            <==> |segs| <= 8 && (forall s :: s in segs ==> ValidSegment(s)) && ValidName(name)
  {
    JoinedEnds(segs);
    PiecesNamespace(segs);
    ParseKeyParts(Join(segs, '/'), name);
  }

  // A run of one letter is a segment up to 63 of them, a name up to 128.
  lemma LengthLimits(n: nat)
    ensures ValidSegment(Times("a", n)) <==> 1 <= n <= 63
    ensures ValidName(Times("A", n)) <==> 1 <= n <= 128
  {
    TimesOfChar('a', n);
    TimesOfChar('A', n);
  }

  const LOWER: string := "abcdefghijklmnopqrstuvwxyz"
  const UPPER: string := "ABCDEFGHIJKLMNOPQRSTUVWXYZ"
  const DIGITS: string := "0123456789"

  // Which characters may stand alone or inside a segment, and begin or
  // continue a name.
  lemma Alphabets(c: char)
    ensures ValidSegment([c]) <==> c in LOWER + DIGITS
    ensures ValidSegment(['a', c, 'a']) <==> c in LOWER + DIGITS + "-"
    ensures ValidName([c]) <==> c in LOWER + UPPER + DIGITS
    ensures ValidName(['a', c]) <==> c in LOWER + UPPER + DIGITS + "_.-"
  {
    Letters(c);
    assert c in [c] && c in ['a', c] && c in ['a', c, 'a'];
  }

  lemma Letters(c: char)
    ensures 'a' <= c <= 'z' <==> c in LOWER
    ensures 'A' <= c <= 'Z' <==> c in UPPER
    ensures '0' <= c <= '9' <==> c in DIGITS
  {}

  // ---- the looser grammar of the comment ---------------------------------

  predicate CommentSegment(s: string) {
    1 <= |s| <= 63 && forall c :: c in s ==> LowerAlnum(c) || c == '-'
  }

  predicate CommentName(s: string) {
    1 <= |s| <= 128 && forall c :: c in s ==> Alnum(c) || c == '_' || c == '.' || c == '-'
  }

  predicate NoDashAtEnds(s: string) {
    s != "" && s[0] != '-' && s[|s| - 1] != '-'
  }

  lemma CommentSegmentValid(s: string)
    requires CommentSegment(s)
    ensures ValidSegment(s) <==> NoDashAtEnds(s)
    ensures Piece(s)
  {
    assert s[0] in s && s[|s| - 1] in s;
  }

  // Of the texts the comment's grammar allows, ParseKey accepts exactly those
  // of at most eight segments, no segment with a '-' at either end, and a
  // name that starts with a letter or digit.
  lemma ParseKeyIsStricter(segs: seq<string>, name: string)
    requires segs != [] && (forall s :: s in segs ==> CommentSegment(s)) && CommentName(name)
    ensures ParseKey(Join(segs, '/') + "/" + name).Ok?
            <==> |segs| <= 8 && (forall s :: s in segs ==> NoDashAtEnds(s)) && Alnum(name[0])
  {
    forall s | s in segs ensures (ValidSegment(s) <==> NoDashAtEnds(s)) && Piece(s) {
      CommentSegmentValid(s);
    }
    PiecesKey(segs, name);
  }

  // For one, a segment that starts with '-'.
  lemma CommentAllowsMore()
    ensures CommentSegment("-a") && CommentName("B") && ParseKey("-a/B") == Err(InvalidKey)
  {
    var segs := ["-a"];
    ParseKeyIsStricter(segs, "B");
    assert "-a" in segs;
    assert Join(segs, '/') + "/" + "B" == "-a/B";
  }

  // Eight segments are a key's limit: a/a/a/a/a/a/a/a/B, and not one more.
  lemma DepthLimit(n: nat)
    requires n > 0
    ensures ParseKey(Join(seq(n, i => "a"), '/') + "/" + "B").Ok? <==> n <= 8
  {
    var segs := seq(n, i => "a");
    assert CommentSegment("a") && NoDashAtEnds("a");
    ParseKeyIsStricter(segs, "B");
  }
}
