/** The parts of Go's `strings` and `slices` packages that the program relies on,
    with the laws about them that the parsers, encoders and listings need.
    A Go string is a sequence of bytes; here each `char` stands for one byte. */
module Text {

  // ---- repetition --------------------------------------------------------

  function Times(unit: string, n: nat): (s: string)
    ensures |s| == n * |unit|
  {
    if n == 0 then "" else unit + Times(unit, n - 1)
  }

  lemma {:induction false} TimesAdds(unit: string, m: nat, n: nat)
    ensures Times(unit, m) + Times(unit, n) == Times(unit, m + n)
  {
    if m == 0 {
    } else {
      TimesAdds(unit, m - 1, n);
      assert Times(unit, m) + Times(unit, n) == unit + (Times(unit, m - 1) + Times(unit, n));
    }
  }

  lemma {:induction false} TimesOfChar(c: char, n: nat)
    ensures forall i :: 0 <= i < n ==> Times([c], n)[i] == c
  {
    if n > 0 {
      TimesOfChar(c, n - 1);
    }
  }

  // ---- strings.Trim ------------------------------------------------------

  function TrimLeft(s: string, c: char): string {
    if s != "" && s[0] == c then TrimLeft(s[1..], c) else s
  }

  function TrimRight(s: string, c: char): string {
    if s != "" && s[|s| - 1] == c then TrimRight(s[..|s| - 1], c) else s
  }

  function Trim(s: string, c: char): string {
    TrimRight(TrimLeft(s, c), c)
  }

  // Nothing left for Trim to remove.
  predicate Bare(s: string, c: char) {
    s != "" ==> s[0] != c && s[|s| - 1] != c
  }

  lemma {:induction false} TrimLeftCuts(s: string, c: char) returns (n: nat)
    ensures s == Times([c], n) + TrimLeft(s, c)
    ensures var t := TrimLeft(s, c); t != "" ==> t[0] != c
  {
    if s != "" && s[0] == c {
      n := TrimLeftCuts(s[1..], c);
      n := n + 1;
      assert s == [c] + s[1..];
    } else {
      n := 0;
    }
  }

  lemma {:induction false} TrimRightCuts(s: string, c: char) returns (n: nat)
    ensures s == TrimRight(s, c) + Times([c], n)
    ensures var t := TrimRight(s, c); t != "" ==> t[|t| - 1] != c && t[0] == s[0]
  {
    if s != "" && s[|s| - 1] == c {
      n := TrimRightCuts(s[..|s| - 1], c);
      TimesAdds([c], n, 1);
      assert Times([c], 1) == [c];
      n := n + 1;
      assert s == s[..|s| - 1] + [c];
    } else {
      n := 0;
    }
  }

  lemma TrimCuts(s: string, c: char) returns (a: nat, b: nat)
    ensures s == Times([c], a) + Trim(s, c) + Times([c], b)
    ensures Bare(Trim(s, c), c)
  {
    a := TrimLeftCuts(s, c);
    b := TrimRightCuts(TrimLeft(s, c), c);
  }

  lemma {:induction false} TrimLeftOf(a: nat, core: string, c: char)
    requires core != "" ==> core[0] != c
    ensures TrimLeft(Times([c], a) + core, c) == core
  {
    if a > 0 {
      TrimLeftOf(a - 1, core, c);
      assert (Times([c], a) + core)[1..] == Times([c], a - 1) + core;
    }
  }

  lemma {:induction false} TrimRightOf(core: string, b: nat, c: char)
    requires core != "" ==> core[|core| - 1] != c
    ensures TrimRight(core + Times([c], b), c) == core
  {
    if b > 0 {
      TrimRightOf(core, b - 1, c);
      TimesAdds([c], b - 1, 1);
      assert Times([c], 1) == [c];
      var s := core + Times([c], b);
      assert s == core + Times([c], b - 1) + [c];
      assert s[..|s| - 1] == core + Times([c], b - 1);
    } else {
      assert core + Times([c], b) == core;
    }
  }

  // Trim removes exactly the padding around a bare, non-empty core.
  lemma TrimOf(a: nat, core: string, b: nat, c: char)
    requires core != "" && Bare(core, c)
    ensures Trim(Times([c], a) + core + Times([c], b), c) == core
  {
    assert Times([c], a) + core + Times([c], b) == Times([c], a) + (core + Times([c], b));
    TrimLeftOf(a, core + Times([c], b), c);
    TrimRightOf(core, b, c);
  }

  lemma TrimBare(s: string, c: char)
    requires s != "" && Bare(s, c)
    ensures Trim(s, c) == s
  {
    TrimOf(0, s, 0, c);
    assert Times([c], 0) + s + Times([c], 0) == s;
  }

  // ---- strings.LastIndex -------------------------------------------------

  function LastIndex(s: string, c: char): (i: int)
    ensures -1 <= i < |s|
    ensures 0 <= i ==> s[i] == c
    ensures forall j :: i < j < |s| ==> s[j] != c
  {
    if s == "" then -1
    else if s[|s| - 1] == c then |s| - 1
    else LastIndex(s[..|s| - 1], c)
  }

  lemma LastIndexIs(s: string, c: char, i: nat)
    requires i < |s| && s[i] == c
    requires c !in s[i + 1..]
    ensures LastIndex(s, c) == i
  {
    forall j | i < j < |s| ensures s[j] != c {
      assert s[j] == s[i + 1..][j - i - 1];
    }
  }

  // ---- strings.Split and strings.Join ------------------------------------

  function Split(s: string, c: char): (parts: seq<string>)
    ensures |parts| >= 1
  {
    if s == "" then [""]
    else
      var rest := Split(s[1..], c);
      if s[0] == c then [""] + rest else [[s[0]] + rest[0]] + rest[1..]
  }

  function Join(parts: seq<string>, c: char): string {
    if parts == [] then ""
    else if |parts| == 1 then parts[0]
    else parts[0] + [c] + Join(parts[1..], c)
  }

  lemma {:induction false} JoinSplit(s: string, c: char)
    ensures Join(Split(s, c), c) == s
  {
    if s != "" {
      JoinSplit(s[1..], c);
      var rest := Split(s[1..], c);
      assert s == [s[0]] + s[1..];
      if s[0] == c {
        assert ([""] + rest)[1..] == rest;
      } else {
        var parts := [[s[0]] + rest[0]] + rest[1..];
        assert parts[1..] == rest[1..];
      }
    }
  }

  lemma {:induction false} SplitSegment(p: string, s: string, c: char)
    requires c !in p
    ensures Split(p, c) == [p]
    ensures Split(p + [c] + s, c) == [p] + Split(s, c)
  {
    if p == "" {
      assert p + [c] + s == [c] + s;
      assert ([c] + s)[1..] == s;
    } else {
      SplitSegment(p[1..], s, c);
      assert (p + [c] + s)[1..] == p[1..] + [c] + s;
      assert p == [p[0]] + p[1..];
      assert ([p[1..]] + Split(s, c))[1..] == Split(s, c);
    }
  }

  lemma {:induction false} SplitJoin(parts: seq<string>, c: char)
    requires parts != []
    requires forall p :: p in parts ==> c !in p
    ensures Split(Join(parts, c), c) == parts
  {
    if |parts| == 1 {
      SplitSegment(parts[0], "", c);
    } else {
      SplitJoin(parts[1..], c);
      SplitSegment(parts[0], Join(parts[1..], c), c);
      assert parts == [parts[0]] + parts[1..];
    }
  }

  // ---- strings.Compare ---------------------------------------------------

  predicate Less(a: string, b: string) {
    b != "" && (a == "" || a[0] < b[0] || (a[0] == b[0] && Less(a[1..], b[1..])))
  }

  predicate AtMost(a: string, b: string) {
    !Less(b, a)
  }

  // Where a and b first differ, a has the smaller byte.
  predicate SmallerAt(a: string, b: string, i: nat) {
    && i < |a| && i < |b| && a[..i] == b[..i] && a[i] < b[i]
  }

  lemma SmallerLater(a: string, b: string, i: nat)
    requires a != "" && b != "" && a[0] == b[0]
    ensures SmallerAt(a, b, i + 1) <==> SmallerAt(a[1..], b[1..], i)
  {
    if i + 1 < |a| && i + 1 < |b| {
      assert a[..i + 1] == [a[0]] + a[1..][..i] && b[..i + 1] == [b[0]] + b[1..][..i];
      assert a[..i + 1][1..] == a[1..][..i] && b[..i + 1][1..] == b[1..][..i];
    }
  }

  // The order is that of strings.Compare: a proper prefix comes first, and
  // otherwise the first byte that differs decides.
  lemma {:induction false} LessMeans(a: string, b: string)
    ensures Less(a, b) <==> (a <= b && |a| < |b|) || exists i: nat :: SmallerAt(a, b, i)
  {
    if a != "" && b != "" {
      if a[0] == b[0] {
        LessMeans(a[1..], b[1..]);
        assert (a <= b && |a| < |b|) <==> (a[1..] <= b[1..] && |a| < |b|);
        if i: nat :| SmallerAt(a[1..], b[1..], i) {
          SmallerLater(a, b, i);
        }
        if i: nat :| SmallerAt(a, b, i) {
          SmallerLater(a, b, i - 1);
        }
      } else if a[0] < b[0] {
        assert SmallerAt(a, b, 0);
      } else {
        forall i: nat ensures !SmallerAt(a, b, i) {
          assert i > 0 && i <= |a| && i <= |b| ==> a[..i][0] == a[0] && b[..i][0] == b[0];
        }
      }
    }
  }

  lemma {:induction false} LessIrreflexive(a: string)
    ensures !Less(a, a)
  {
    if a != "" {
      LessIrreflexive(a[1..]);
    }
  }

  lemma {:induction false} LessTotal(a: string, b: string)
    ensures Less(a, b) || a == b || Less(b, a)
  {
    if a != "" && b != "" && a[0] == b[0] {
      LessTotal(a[1..], b[1..]);
      assert a == [a[0]] + a[1..] && b == [b[0]] + b[1..];
    }
  }

  lemma {:induction false} LessTransitive(a: string, b: string, c: string)
    requires Less(a, b) && Less(b, c)
    ensures Less(a, c)
  {
    if a != "" && a[0] == b[0] == c[0] {
      LessTransitive(a[1..], b[1..], c[1..]);
    }
  }

  lemma {:induction false} LessAsymmetric(a: string, b: string)
    requires Less(a, b)
    ensures !Less(b, a) && a != b
  {
    LessIrreflexive(a);
    if Less(b, a) {
      LessTransitive(a, b, a);
    }
  }

  // The order of strings with a common first part is the order of the rest.
  lemma {:induction false} LessAfterPrefix(p: string, a: string, b: string)
    ensures Less(p + a, p + b) <==> Less(a, b)
  {
    if p == "" {
      assert p + a == a && p + b == b;
    } else {
      LessAfterPrefix(p[1..], a, b);
      assert (p + a)[1..] == p[1..] + a && (p + b)[1..] == p[1..] + b;
    }
  }

  // Two parts of equal length that differ decide the order, whatever follows.
  lemma {:induction false} LessByPrefix(p: string, q: string, a: string, b: string)
    requires |p| == |q| && p != q
    ensures Less(p + a, q + b) <==> Less(p, q)
  {
    if p[0] == q[0] {
      assert p == [p[0]] + p[1..] && q == [q[0]] + q[1..];
      LessByPrefix(p[1..], q[1..], a, b);
      assert (p + a)[1..] == p[1..] + a && (q + b)[1..] == q[1..] + b;
    }
  }

  // ---- strconv: decimal numbers ------------------------------------------

  function Digit(d: nat): char
    requires d < 10
  {
    '0' + d as char
  }

  function Decimal(n: nat): (s: string)
    ensures s != ""
  {
    if n < 10 then [Digit(n)] else Decimal(n / 10) + [Digit(n % 10)]
  }

  function NumberOf(s: string): int {
    if s == "" then 0 else 10 * NumberOf(s[..|s| - 1]) + (s[|s| - 1] as int - '0' as int)
  }

  lemma {:induction false} DecimalReads(n: nat)
    ensures NumberOf(Decimal(n)) == n
  {
    if n < 10 {
      assert [Digit(n)][..0] == "";
    } else {
      DecimalReads(n / 10);
      assert Decimal(n)[..|Decimal(n)| - 1] == Decimal(n / 10);
    }
  }

  lemma DecimalInjective(m: nat, n: nat)
    requires Decimal(m) == Decimal(n)
    ensures m == n
  {
    DecimalReads(m);
    DecimalReads(n);
  }
}
