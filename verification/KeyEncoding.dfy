/** Keys stored under a flat name: the laws both backends' encodings share. */
module KeyEncoding {
  import opened Outcomes
  import opened Text
  import opened Keys
  import opened Escaping

  datatype EncodeError = TooLong(length: nat)

  function Encode(sc: Scheme, max: nat, k: Key): Result<string, EncodeError> {
    var s := sc.Escape(k.String());
    if |s| > max then Err(TooLong(|s|)) else Ok(s)
  }

  function Decode(sc: Scheme, s: string): Result<Key, KeyError> {
    match sc.Unescape(s)
    case None => Err(InvalidKey)
    case Some(t) => ParseKey(t)
  }

  lemma DecodeEncode(sc: Scheme, max: nat, k: Key)
    requires sc.Sound() && Encode(sc, max, k).Ok?
    ensures Decode(sc, Encode(sc, max, k).value) == Ok(k)
  {
    UnescapeEscape(sc, k.String());
    ParsePrint(k);
  }

  // Two keys never share an encoding.
  lemma EncodeInjective(sc: Scheme, max: nat, k1: Key, k2: Key)
    requires sc.Sound() && Encode(sc, max, k1).Ok? && Encode(sc, max, k1) == Encode(sc, max, k2)
    ensures k1 == k2
  {
    DecodeEncode(sc, max, k1);
    DecodeEncode(sc, max, k2);
  }

  // The canonical encoding with extra escaped slashes at the ends or before the name.
  predicate PaddedWith(sc: Scheme, id: string, k: Key, a: nat, b: nat, c: nat) {
    b >= 1 && id == Times(sc.Unit('/'), a) + sc.Escape(k.ns.String()) + Times(sc.Unit('/'), b)
                    + sc.Escape(k.name) + Times(sc.Unit('/'), c)
  }

  ghost predicate Padded(sc: Scheme, id: string, k: Key) {
    exists a: nat, b: nat, c: nat :: PaddedWith(sc, id, k, a, b, c)
  }

  lemma EscapeSpelling(sc: Scheme, k: Key, a: nat, b: nat, c: nat)
    ensures sc.Escape(Slashes(a) + k.ns.String() + Slashes(b) + k.name + Slashes(c))
            == Times(sc.Unit('/'), a) + sc.Escape(k.ns.String()) + Times(sc.Unit('/'), b)
               + sc.Escape(k.name) + Times(sc.Unit('/'), c)
  {
    var ns := k.ns.String();
    EscapeAdds(sc, Slashes(a) + ns + Slashes(b) + k.name, Slashes(c));
    EscapeAdds(sc, Slashes(a) + ns + Slashes(b), k.name);
    EscapeAdds(sc, Slashes(a) + ns, Slashes(b));
    EscapeAdds(sc, Slashes(a), ns);
    EscapeTimes(sc, '/', a);
    EscapeTimes(sc, '/', b);
    EscapeTimes(sc, '/', c);
  }

  // A name decodes to k exactly when, its plain characters escaped as far as
  // they can be, it is k's encoding with superfluous escaped slashes.
  lemma DecodeFibre(sc: Scheme, name: string, k: Key)
    requires sc.Sound()
    ensures Decode(sc, name) == Ok(k) <==> Padded(sc, sc.Spread(name), k)
  {
    var id := sc.Spread(name);
    if Decode(sc, name) == Ok(k) {
      var t := sc.Unescape(name).value;
      UnescapeIsSpread(sc, name, t);
      ParseKeyDecides(t, k);
      var a: nat, b: nat, c: nat :| SpellsWith(t, k, a, b, c);
      EscapeSpelling(sc, k, a, b, c);
      assert PaddedWith(sc, id, k, a, b, c);
    }
    if Padded(sc, id, k) {
      var a: nat, b: nat, c: nat :| PaddedWith(sc, id, k, a, b, c);
      EscapeSpelling(sc, k, a, b, c);
      var t := Slashes(a) + k.ns.String() + Slashes(b) + k.name + Slashes(c);
      UnescapeIsSpread(sc, name, t);
      assert SpellsWith(t, k, a, b, c);
      ParseKeyDecides(t, k);
    }
  }

  // A name that fits and decodes re-encodes to a name that fits, no longer
  // than itself, and to itself exactly when it is not longer.
  lemma ReEncode(sc: Scheme, max: nat, id: string, k: Key, alphabet: set<char>)
    requires sc.Sound() && sc.PlainSafe(alphabet)
    requires forall c :: c in id ==> c in alphabet
    requires |id| <= max && Decode(sc, id) == Ok(k)
    ensures Encode(sc, max, k).Ok? && |Encode(sc, max, k).value| <= |id|
    ensures Encode(sc, max, k).value == id <==> PaddedWith(sc, id, k, 0, 1, 0)
    ensures Encode(sc, max, k).value == id <==> |Encode(sc, max, k).value| == |id|
  {
    SpreadKeeps(sc, id, alphabet);
    DecodeFibre(sc, id, k);
    var a: nat, b: nat, c: nat :| PaddedWith(sc, id, k, a, b, c);
    EscapeSpelling(sc, k, 0, 1, 0);
    CanonicalSpelling(k);
    PaddingCosts(sc, a, b, c);
  }

  lemma PaddingCosts(sc: Scheme, a: nat, b: nat, c: nat)
    requires b >= 1
    ensures |Times(sc.Unit('/'), a)| + |Times(sc.Unit('/'), b)| + |Times(sc.Unit('/'), c)|
            >= |sc.Unit('/')| + (a + b - 1 + c)
    ensures Times(sc.Unit('/'), 0) == "" && Times(sc.Unit('/'), 1) == sc.Unit('/')
  {
    var u := |sc.Unit('/')|;
    assert a * u >= a && c * u >= c && (b - 1) * u >= b - 1;
    assert b * u == (b - 1) * u + u;
  }
}
