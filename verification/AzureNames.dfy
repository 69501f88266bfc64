/** Key Vault secret names: [0-9a-zA-Z-], at most 127 characters, compared
    without regard to case. */
module AzureNames {
  import opened Outcomes
  import opened Text
  import opened Keys
  import opened Escaping
  import opened KeyEncoding

  const MAX_AZURE_NAME_LEN := 127

  // The escape table.
  function AzureCode(c: char): Option<char> {
    if c == '-' then Some('0')
    else if c == '/' then Some('1')
    else if c == '_' then Some('2')
    else if c == '.' then Some('3')
    else if 'A' <= c <= 'Z' then Some(c - 'A' + 'a')
    else None
  }

  function AzureUncode(e: char): Option<char> {
    if e == '0' then Some('-')
    else if e == '1' then Some('/')
    else if e == '2' then Some('_')
    else if e == '3' then Some('.')
    else if 'a' <= e <= 'z' then Some(e - 'a' + 'A')
    else None
  }

  const AZURE := Scheme(AzureCode, AzureUncode)

  lemma AzureSound()
    ensures AZURE.Sound()
  {
    assert AZURE.code == AzureCode && AZURE.uncode == AzureUncode;
  }

  method EncodeName(key: Key) returns (r: Result<string, EncodeError>)
    ensures r == Encode(AZURE, MAX_AZURE_NAME_LEN, key)
  {
    var s := key.String();
    var b := "";
    for i := 0 to |s|
      invariant b == AZURE.Escape(s[..i])
    {
      ghost var before := b;
      var c := s[i];
      if c == '-' {
        b := b + "-0";
      } else if c == '/' {
        b := b + "-1";
      } else if c == '_' {
        b := b + "-2";
      } else if c == '.' {
        b := b + "-3";
      } else if 'A' <= c <= 'Z' {
        b := b + ['-'];
        b := b + [c - 'A' + 'a'];
      } else {
        b := b + [c];
      }
      EscapeAdds(AZURE, s[..i], [c]);
      assert s[..i + 1] == s[..i] + [c];
      assert AZURE.Escape([c]) == AZURE.Unit(c);
      assert b == before + AZURE.Unit(c);
    }
    assert s[..|s|] == s;
    if |b| > MAX_AZURE_NAME_LEN {
      return Err(TooLong(|b|));
    }
    return Ok(b);
  }

  method DecodeName(name: string) returns (r: Result<Key, KeyError>)
    ensures r == Decode(AZURE, name)
  {
    var b := "";
    var i := 0;
    while i < |name|
      invariant 0 <= i <= |name|
      invariant AZURE.Unescape(name[..i]) == Some(b)
    {
      var c := name[i];
      if c != '-' {
        UnescapeStep(AZURE, name[..i], [c], c);
        assert name[..i + 1] == name[..i] + [c];
        b := b + [c];
        i := i + 1;
        continue;
      }
      assert name == name[..i] + name[i..];
      i := i + 1;
      if i >= |name| {
        UnescapeStuck(AZURE, name[..i - 1], name[i - 1..]);
        return Err(InvalidKey);
      }
      var e := name[i];
      var d: char;
      if e == '0' {
        d := '-';
      } else if e == '1' {
        d := '/';
      } else if e == '2' {
        d := '_';
      } else if e == '3' {
        d := '.';
      } else if 'a' <= e <= 'z' {
        d := e - 'a' + 'A';
      } else {
        UnescapeStuck(AZURE, name[..i - 1], name[i - 1..]);
        return Err(InvalidKey);
      }
      UnescapeStep(AZURE, name[..i - 1], ['-', e], d);
      assert name[..i + 1] == name[..i - 1] + ['-', e];
      b := b + [d];
      i := i + 1;
    }
    assert name[..|name|] == name;
    return ParseKey(b);
  }

  // ---- what the encoding promises ----------------------------------------

  // Characters of encoded names.
  const AZURE_OUTPUT: set<char> := set c: char | '0' <= c <= '9' || 'a' <= c <= 'z' || c == '-'

  const AZURE_CODES: set<char> := set c: char | '0' <= c <= '3' || 'a' <= c <= 'z'

  // Key Vault's view of a name.
  function Fold(s: string): string {
    if s == "" then "" else [if 'A' <= s[0] <= 'Z' then s[0] - 'A' + 'a' else s[0]] + Fold(s[1..])
  }

  lemma KeyCharacters(k: Key)
    ensures forall c :: c in k.String() ==> Alnum(c) || c in "-/_."
    ensures LowerAlnum(k.String()[0])
  {
    ValidNamespaceSpelling(k.ns);
  }

  lemma {:induction false} EscapedCharacters(s: string)
    requires forall c :: c in s ==> Alnum(c) || c in "-/_."
    ensures forall c :: c in AZURE.Escape(s) ==> c in AZURE_OUTPUT
  {
    if s != "" {
      EscapedCharacters(s[1..]);
      assert s[0] in s;
      forall c | c in AZURE.Unit(s[0]) ensures c in AZURE_OUTPUT {
      }
    }
  }

  lemma {:induction false} FoldKeepsLower(s: string)
    requires forall c :: c in s ==> !('A' <= c <= 'Z')
    ensures Fold(s) == s
  {
    if s != "" {
      assert forall c :: c in s[1..] ==> c in s;
      FoldKeepsLower(s[1..]);
      assert s == [s[0]] + s[1..] && s[0] in s;
    }
  }

  lemma EncodeNameRoundTrips(k: Key)
    requires Encode(AZURE, MAX_AZURE_NAME_LEN, k).Ok?
    ensures Decode(AZURE, Encode(AZURE, MAX_AZURE_NAME_LEN, k).value) == Ok(k)
  {
    AzureSound();
    DecodeEncode(AZURE, MAX_AZURE_NAME_LEN, k);
  }

  // Encoded names use only [0-9a-z-], and every '-' is followed by one code.
  lemma EncodeNameAlphabet(k: Key)
    ensures var s := AZURE.Escape(k.String());
            (forall c :: c in s ==> c in AZURE_OUTPUT) && WellPaired(s, AZURE_CODES)
  {
    AzureSound();
    KeyCharacters(k);
    EscapedCharacters(k.String());
    EscapePairs(AZURE, k.String(), AZURE_CODES);
  }

  // Distinct keys stay distinct even to a vault that ignores case.
  lemma EncodeNameNeverCollides(k1: Key, k2: Key)
    requires Fold(AZURE.Escape(k1.String())) == Fold(AZURE.Escape(k2.String()))
    ensures k1 == k2
  {
    AzureSound();
    EncodeNameAlphabet(k1);
    EncodeNameAlphabet(k2);
    FoldKeepsLower(AZURE.Escape(k1.String()));
    FoldKeepsLower(AZURE.Escape(k2.String()));
    UnescapeEscape(AZURE, k1.String());
    UnescapeEscape(AZURE, k2.String());
    StringInjective(k1, k2);
  }

  // A name decodes to k exactly when, its capitals escaped, it is k's
  // encoding with superfluous escaped slashes.
  lemma DecodeNameFibre(name: string, k: Key)
    ensures Decode(AZURE, name) == Ok(k) <==> Padded(AZURE, AZURE.Spread(name), k)
    ensures (forall c :: c in name ==> c in AZURE_OUTPUT) ==> AZURE.Spread(name) == name
  {
    AzureSound();
    DecodeFibre(AZURE, name, k);
    if forall c :: c in name ==> c in AZURE_OUTPUT {
      SpreadKeeps(AZURE, name, AZURE_OUTPUT);
    }
  }

  // A name with capitals may decode, but never to a key stored under it.
  lemma CapitalsAreForeign(name: string, k: Key)
    requires exists c :: c in name && 'A' <= c <= 'Z'
    ensures Encode(AZURE, MAX_AZURE_NAME_LEN, k) != Ok(name)
  {
    EncodeNameAlphabet(k);
  }

  // Every key of at most 64 characters fits in 127.
  lemma EncodeNameFits(k: Key)
    ensures |AZURE.Escape(k.String())| <= 2 * |k.String()| - 1
    ensures |k.String()| <= 64 ==> Encode(AZURE, MAX_AZURE_NAME_LEN, k).Ok?
  {
    var s := k.String();
    KeyCharacters(k);
    EscapeLength(AZURE, s[1..]);
  }

  function Tall(n: nat): Key
    requires 1 <= n <= MAX_NAME_LEN
  {
    TallName(n);
    Key(Namespace(["a"]), Times("A", n))
  }

  lemma TallName(n: nat)
    requires 1 <= n <= MAX_NAME_LEN
    ensures ValidName(Times("A", n)) && Namespace(["a"]).Valid()
  {
    TimesOfChar('A', n);
  }

  lemma TallLength(n: nat)
    requires 1 <= n <= MAX_NAME_LEN
    ensures |Tall(n).String()| == n + 2 && |AZURE.Escape(Tall(n).String())| == 2 * n + 3
  {
    var k := Tall(n);
    assert k.ns.String() == "a";
    assert k.String() == "a" + ("/" + Times("A", n));
    EscapeAdds(AZURE, "a", "/" + Times("A", n));
    EscapeAdds(AZURE, "/", Times("A", n));
    EscapeTimes(AZURE, 'A', n);
    assert AZURE.Unit('A') == "-a";
    assert AZURE.Escape("a") == "a" && AZURE.Escape("/") == "-1";
  }

  // The table of the encoding, character by character.
  lemma EscapeTable(c: char)
    ensures AZURE.Escape("-") == "-0" && AZURE.Escape("/") == "-1"
    ensures AZURE.Escape("_") == "-2" && AZURE.Escape(".") == "-3"
    ensures 'A' <= c <= 'Z' ==> AZURE.Escape([c]) == ['-', c - 'A' + 'a']
    ensures LowerAlnum(c) ==> AZURE.Escape([c]) == [c]
  {
    EscapeOne(AZURE, '-');
    EscapeOne(AZURE, '/');
    EscapeOne(AZURE, '_');
    EscapeOne(AZURE, '.');
    EscapeOne(AZURE, c);
  }

  // A name of 127 characters is the longest there is.
  lemma EncodeNameLimit()
    ensures exists k: Key :: Encode(AZURE, MAX_AZURE_NAME_LEN, k).Ok? && |AZURE.Escape(k.String())| == 127
    ensures forall k: Key :: |AZURE.Escape(k.String())| >= 128 ==>
              Encode(AZURE, MAX_AZURE_NAME_LEN, k) == Err(TooLong(|AZURE.Escape(k.String())|))
  {
    var n := 62;
    TallLength(n);
    var k := Tall(n);
    assert Encode(AZURE, MAX_AZURE_NAME_LEN, k).Ok? && |AZURE.Escape(k.String())| == 127;
  }

  // 64 is tight: a key of 65 characters that does not fit.
  lemma EncodeNameBoundTight()
    ensures exists k: Key :: |k.String()| == 65 && Encode(AZURE, MAX_AZURE_NAME_LEN, k) == Err(TooLong(129))
  {
    var n := 63;
    TallLength(n);
    var k := Tall(n);
    assert |k.String()| == 65 && Encode(AZURE, MAX_AZURE_NAME_LEN, k) == Err(TooLong(129));
  }
}
