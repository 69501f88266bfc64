/** Secret Manager IDs: [A-Za-z0-9_-], at most 255 characters. */
module GcpNames {
  import opened Outcomes
  import opened Text
  import opened Keys
  import opened Escaping
  import opened KeyEncoding

  const MAX_ID_LEN := 255

  function GcpCode(c: char): Option<char> {
    if c == '-' then Some('0') else if c == '/' then Some('1') else if c == '.' then Some('2') else None
  }

  function GcpUncode(e: char): Option<char> {
    if e == '0' then Some('-') else if e == '1' then Some('/') else if e == '2' then Some('.') else None
  }

  const GCP := Scheme(GcpCode, GcpUncode)

  lemma GcpSound()
    ensures GCP.Sound()
  {
    assert GCP.code == GcpCode && GCP.uncode == GcpUncode;
  }

  method EncodeID(key: Key) returns (r: Result<string, EncodeError>)
    ensures r == Encode(GCP, MAX_ID_LEN, key)
  {
    var s := key.String();
    var b := "";
    for i := 0 to |s|
      invariant b == GCP.Escape(s[..i])
    {
      ghost var before := b;
      var c := s[i];
      match c {
        case '-' => b := b + "-0";
        case '/' => b := b + "-1";
        case '.' => b := b + "-2";
        case _ => b := b + [c];
      }
      EscapeAdds(GCP, s[..i], [c]);
      assert s[..i + 1] == s[..i] + [c];
      assert GCP.Escape([c]) == GCP.Unit(c);
      assert b == before + GCP.Unit(c);
    }
    assert s[..|s|] == s;
    if |b| > MAX_ID_LEN {
      return Err(TooLong(|b|));
    }
    return Ok(b);
  }

  method DecodeID(id: string) returns (r: Result<Key, KeyError>)
    ensures r == Decode(GCP, id)
  {
    var b := "";
    var i := 0;
    while i < |id|
      invariant 0 <= i <= |id|
      invariant GCP.Unescape(id[..i]) == Some(b)
    {
      var c := id[i];
      if c != '-' {
        UnescapeStep(GCP, id[..i], [c], c);
        assert id[..i + 1] == id[..i] + [c];
        b := b + [c];
        i := i + 1;
        continue;
      }
      assert id == id[..i] + id[i..];
      i := i + 1;
      if i >= |id| {
        UnescapeStuck(GCP, id[..i - 1], id[i - 1..]);
        return Err(InvalidKey);
      }
      var d: char;
      match id[i] {
        case '0' => d := '-';
        case '1' => d := '/';
        case '2' => d := '.';
        case _ =>
          UnescapeStuck(GCP, id[..i - 1], id[i - 1..]);
          return Err(InvalidKey);
      }
      UnescapeStep(GCP, id[..i - 1], ['-', id[i]], d);
      assert id[..i + 1] == id[..i - 1] + ['-', id[i]];
      b := b + [d];
      i := i + 1;
    }
    assert id[..|id|] == id;
    return ParseKey(b);
  }

  // ---- what the encoding promises ----------------------------------------

  // The characters Secret Manager accepts in an ID.
  const ID_ALPHABET: set<char> := set c: char | Alnum(c) || c == '_' || c == '-'

  predicate IsID(s: string) {
    |s| <= MAX_ID_LEN && forall c :: c in s ==> c in ID_ALPHABET
  }

  lemma {:induction false} EscapedAlphabet(s: string)
    requires forall c :: c in s ==> Alnum(c) || c in "-/_."
    ensures forall c :: c in GCP.Escape(s) ==> c in ID_ALPHABET
  {
    if s != "" {
      EscapedAlphabet(s[1..]);
      assert s[0] in s;
      forall c | c in GCP.Unit(s[0]) ensures c in ID_ALPHABET {
      }
    }
  }

  // What EncodeID produces is an acceptable ID, and decodes to the key.
  lemma EncodeIDRoundTrips(k: Key)
    requires Encode(GCP, MAX_ID_LEN, k).Ok?
    ensures IsID(Encode(GCP, MAX_ID_LEN, k).value)
    ensures Decode(GCP, Encode(GCP, MAX_ID_LEN, k).value) == Ok(k)
  {
    GcpSound();
    DecodeEncode(GCP, MAX_ID_LEN, k);
    ValidNamespaceSpelling(k.ns);
    EscapedAlphabet(k.String());
  }

  // Unescaping is injective on IDs: an ID unescapes to t iff it is t escaped.
  lemma UnescapeIDInjective(id: string, t: string)
    requires IsID(id)
    ensures GCP.Unescape(id) == Some(t) <==> id == GCP.Escape(t)
  {
    GcpSound();
    SpreadKeeps(GCP, id, ID_ALPHABET);
    UnescapeIsSpread(GCP, id, t);
  }

  // The IDs that decode to k: its canonical ID with extra "-1" escapes at the
  // ends or before the name.
  lemma DecodeIDFibre(id: string, k: Key)
    requires IsID(id)
    ensures Decode(GCP, id) == Ok(k) <==> Padded(GCP, id, k)
  {
    GcpSound();
    SpreadKeeps(GCP, id, ID_ALPHABET);
    DecodeFibre(GCP, id, k);
  }

  // Decoding then encoding always fits, and gives back the ID exactly when it
  // carries no extra escape.
  lemma ReEncodeID(id: string, k: Key)
    requires IsID(id) && Decode(GCP, id) == Ok(k)
    ensures Encode(GCP, MAX_ID_LEN, k).Ok?
    ensures Encode(GCP, MAX_ID_LEN, k) == Ok(id) <==> PaddedWith(GCP, id, k, 0, 1, 0)
  {
    GcpSound();
    ReEncode(GCP, MAX_ID_LEN, id, k, ID_ALPHABET);
  }

  // Neither the first character of a key nor that of its name is escaped.
  lemma EncodeIDFits(k: Key)
    ensures |GCP.Escape(k.String())| <= 2 * |k.String()| - 2
    ensures |k.String()| <= 128 ==> Encode(GCP, MAX_ID_LEN, k).Ok?
  {
    ValidNamespaceSpelling(k.ns);
    var front := k.ns.String() + "/";
    assert k.String() == front + k.name;
    EscapeAdds(GCP, front, k.name);
    EscapeLength(GCP, front[1..]);
    EscapeLength(GCP, k.name[1..]);
  }

  function Dashed(n: nat): Key
    requires 1 <= n < MAX_NAME_LEN
  {
    DashedName(n);
    Key(Namespace(["a"]), "A" + Times("-", n))
  }

  lemma DashedName(n: nat)
    requires 1 <= n < MAX_NAME_LEN
    ensures ValidName("A" + Times("-", n)) && Namespace(["a"]).Valid() && Namespace(["aa"]).Valid()
  {
    TimesOfChar('-', n);
  }

  lemma DashedLength(n: nat)
    requires 1 <= n < MAX_NAME_LEN
    ensures |Dashed(n).String()| == n + 3 && |GCP.Escape(Dashed(n).String())| == 2 * n + 4
  {
    var k, name := Dashed(n), "A" + Times("-", n);
    assert k.ns.String() == "a";
    assert k.String() == "a" + ("/" + name);
    EscapeAdds(GCP, "a", "/" + name);
    EscapeAdds(GCP, "/", name);
    EscapeAdds(GCP, "A", Times("-", n));
    EscapeTimes(GCP, '-', n);
    assert GCP.Unit('-') == "-0";
    assert GCP.Escape("a") == "a" && GCP.Escape("/") == "-1" && GCP.Escape("A") == "A";
  }

  // The table of the encoding, character by character.
  lemma EscapeTable(c: char)
    ensures GCP.Escape("-") == "-0" && GCP.Escape("/") == "-1" && GCP.Escape(".") == "-2"
    ensures Alnum(c) || c == '_' ==> GCP.Escape([c]) == [c]
  {
    EscapeOne(GCP, '-');
    EscapeOne(GCP, '/');
    EscapeOne(GCP, '.');
    EscapeOne(GCP, c);
  }

  function WideDashed(n: nat): Key
    requires 1 <= n < MAX_NAME_LEN
  {
    DashedName(n);
    Key(Namespace(["aa"]), "A" + Times("-", n))
  }

  lemma WideDashedLength(n: nat)
    requires 1 <= n < MAX_NAME_LEN
    ensures |GCP.Escape(WideDashed(n).String())| == 2 * n + 5
  {
    DashedLength(n);
    EscapeAdds(GCP, "a", Dashed(n).String());
    assert Dashed(n).ns.String() == "a" && WideDashed(n).ns.String() == "aa";
    assert WideDashed(n).String() == "a" + Dashed(n).String();
    assert GCP.Escape("a") == "a";
  }

  // An ID of 255 characters is the longest there is.
  lemma EncodeIDLimit()
    ensures exists k: Key :: Encode(GCP, MAX_ID_LEN, k).Ok? && |GCP.Escape(k.String())| == 255
    ensures forall k: Key :: |GCP.Escape(k.String())| >= 256 ==>
              Encode(GCP, MAX_ID_LEN, k) == Err(TooLong(|GCP.Escape(k.String())|))
  {
    var n := 125;
    WideDashedLength(n);
    var k := WideDashed(n);
    assert Encode(GCP, MAX_ID_LEN, k).Ok? && |GCP.Escape(k.String())| == 255;
  }

  // 128 is tight: a key of 129 characters that does not fit.
  lemma EncodeIDBoundTight()
    ensures exists k: Key :: |k.String()| == 129 && Encode(GCP, MAX_ID_LEN, k) == Err(TooLong(256))
  {
    var n := 126;
    DashedLength(n);
    var k := Dashed(n);
    assert |k.String()| == 129 && Encode(GCP, MAX_ID_LEN, k) == Err(TooLong(256));
  }
}
