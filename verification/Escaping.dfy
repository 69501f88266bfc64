/** The escaping scheme shared by the two name encodings: a character is written
    either as itself or as '-' followed by one code character. */
module Escaping {
  import opened Outcomes
  import opened Text

  // code(c) is the character written after '-' for c, if c is escaped;
  // uncode reads it back.
  datatype Scheme = Scheme(code: char -> Option<char>, uncode: char -> Option<char>) {
    // The escape character is itself escaped, and codes are unambiguous.
    ghost predicate Sound() {
      && code('-').Some?
      && (forall c, e :: code(c) == Some(e) <==> uncode(e) == Some(c))
    }

    function Unit(c: char): string {
      match code(c)
      case Some(e) => ['-', e]
      case None => [c]
    }

    function Escape(s: string): string {
      if s == "" then "" else Unit(s[0]) + Escape(s[1..])
    }

    // Fails on a trailing '-' and on a code that stands for nothing.
    function Unescape(s: string): Option<string> {
      if s == "" then Some("")
      else if s[0] != '-' then Prepend(s[0], Unescape(s[1..]))
      else if |s| == 1 then None
      else
        match uncode(s[1])
        case None => None
        case Some(c) => Prepend(c, Unescape(s[2..]))
    }

    // s with a code for every plain character that has one.
    function Spread(s: string): string {
      if s == "" then ""
      else if s[0] != '-' then Unit(s[0]) + Spread(s[1..])
      else if |s| == 1 then s
      else s[..2] + Spread(s[2..])
    }

    // How many characters of s need a code.
    function Escaped(s: string): nat {
      if s == "" then 0 else (if code(s[0]).Some? then 1 else 0) + Escaped(s[1..])
    }

    // No unescaped character of s should have been escaped.
    ghost predicate PlainSafe(alphabet: set<char>) {
      forall c :: c in alphabet && c != '-' ==> code(c).None?
    }
  }

  function Prepend(c: char, s: Option<string>): Option<string> {
    match s
    case None => None
    case Some(t) => Some([c] + t)
  }

  lemma {:induction false} EscapeLength(sc: Scheme, s: string)
    ensures |sc.Escape(s)| == |s| + sc.Escaped(s)
    ensures sc.Escaped(s) <= |s|
  {
    if s != "" {
      EscapeLength(sc, s[1..]);
    }
  }

  lemma {:induction false} EscapeAdds(sc: Scheme, s: string, t: string)
    ensures sc.Escape(s + t) == sc.Escape(s) + sc.Escape(t)
  {
    if s == "" {
      assert s + t == t;
    } else {
      EscapeAdds(sc, s[1..], t);
      assert (s + t)[1..] == s[1..] + t;
    }
  }

  lemma EscapeOne(sc: Scheme, c: char)
    ensures sc.Escape([c]) == sc.Unit(c)
  {
    assert [c][1..] == "" && sc.Escape("") == "" && sc.Unit(c) + "" == sc.Unit(c);
  }

  lemma {:induction false} EscapeTimes(sc: Scheme, c: char, n: nat)
    ensures sc.Escape(Times([c], n)) == Times(sc.Unit(c), n)
  {
    if n > 0 {
      EscapeTimes(sc, c, n - 1);
      assert Times([c], n)[1..] == Times([c], n - 1);
    }
  }

  // Decoding inverts encoding, for every string.
  lemma {:induction false} UnescapeEscape(sc: Scheme, s: string)
    requires sc.Sound()
    ensures sc.Unescape(sc.Escape(s)) == Some(s)
  {
    if s != "" {
      UnescapeEscape(sc, s[1..]);
      var rest := sc.Escape(s[1..]);
      var u := sc.Unit(s[0]);
      assert s == [s[0]] + s[1..];
      if sc.code(s[0]).Some? {
        assert (u + rest)[2..] == rest;
      } else {
        assert s[0] != '-';
        assert (u + rest)[1..] == rest;
      }
    }
  }

  // Decoding does not tell a plain character from its code.
  lemma {:induction false} UnescapeSpread(sc: Scheme, s: string)
    requires sc.Sound()
    ensures sc.Unescape(sc.Spread(s)) == sc.Unescape(s)
  {
    if s != "" && s[0] != '-' {
      UnescapeSpread(sc, s[1..]);
      var u, rest := sc.Unit(s[0]), sc.Spread(s[1..]);
      assert (u + rest)[|u|..] == rest;
    } else if |s| > 1 {
      UnescapeSpread(sc, s[2..]);
      assert (s[..2] + sc.Spread(s[2..]))[2..] == sc.Spread(s[2..]);
    }
  }

  lemma {:induction false} DecodedSpreads(sc: Scheme, s: string)
    requires sc.Sound() && sc.Unescape(s).Some?
    ensures sc.Spread(s) == sc.Escape(sc.Unescape(s).value)
  {
    if s != "" {
      var k := if s[0] != '-' then 1 else 2;
      DecodedSpreads(sc, s[k..]);
      var t := sc.Unescape(s).value;
      assert t[1..] == sc.Unescape(s[k..]).value;
      assert k == 2 ==> sc.Unit(t[0]) == s[..2];
    }
  }

  // A string decodes to t exactly when, its plain characters escaped as far
  // as they can be, it is the encoding of t.
  lemma UnescapeIsSpread(sc: Scheme, s: string, t: string)
    requires sc.Sound()
    ensures sc.Unescape(s) == Some(t) <==> sc.Spread(s) == sc.Escape(t)
  {
    UnescapeEscape(sc, t);
    UnescapeSpread(sc, s);
    if sc.Unescape(s) == Some(t) {
      DecodedSpreads(sc, s);
    }
  }

  // Nothing to escape over an alphabet whose plain characters have no code.
  lemma {:induction false} SpreadKeeps(sc: Scheme, s: string, alphabet: set<char>)
    requires sc.PlainSafe(alphabet) && forall c :: c in s ==> c in alphabet
    ensures sc.Spread(s) == s
  {
    if s != "" && s[0] != '-' {
      SpreadKeeps(sc, s[1..], alphabet);
      assert s == [s[0]] + s[1..] && s[0] in s;
    } else if |s| > 1 {
      SpreadKeeps(sc, s[2..], alphabet);
    }
  }

  lemma {:induction false} UnescapeStep(sc: Scheme, front: string, unit: string, c: char)
    requires sc.Unescape(front).Some?
    requires (|unit| == 1 && unit[0] == c != '-') || (|unit| == 2 && unit[0] == '-' && sc.uncode(unit[1]) == Some(c))
    ensures sc.Unescape(front + unit) == Some(sc.Unescape(front).value + [c])
  {
    if front == "" {
      assert front + unit == unit;
      assert unit[|unit|..] == "" && [] + [c] == [c] + "";
    } else {
      var k := if front[0] != '-' then 1 else 2;
      UnescapeStep(sc, front[k..], unit, c);
      assert (front + unit)[k..] == front[k..] + unit;
      var whole, part := sc.Unescape(front).value, sc.Unescape(front[k..]).value;
      assert whole + [c] == [whole[0]] + (part + [c]);
    }
  }

  // A string whose decoded part is stuck decodes to nothing.
  lemma {:induction false} UnescapeStuck(sc: Scheme, front: string, rest: string)
    requires sc.Unescape(front).Some?
    requires rest != "" && rest[0] == '-' && (|rest| == 1 || sc.uncode(rest[1]).None?)
    ensures sc.Unescape(front + rest).None?
  {
    if front == "" {
      assert front + rest == rest;
    } else {
      var k := if front[0] != '-' then 1 else 2;
      UnescapeStuck(sc, front[k..], rest);
      assert (front + rest)[k..] == front[k..] + rest;
    }
  }

  // Every '-' of an encoding is followed by exactly one code character, and
  // no other character of it is the escape character.
  ghost predicate WellPaired(s: string, codes: set<char>) {
    s == "" || (if s[0] == '-' then |s| >= 2 && s[1] in codes && WellPaired(s[2..], codes)
                else WellPaired(s[1..], codes))
  }

  lemma {:induction false} EscapePairs(sc: Scheme, s: string, codes: set<char>)
    requires sc.Sound()
    requires forall c, e :: sc.code(c) == Some(e) ==> e in codes
    ensures WellPaired(sc.Escape(s), codes)
  {
    if s != "" {
      EscapePairs(sc, s[1..], codes);
      var u := sc.Unit(s[0]);
      assert (u + sc.Escape(s[1..]))[|u|..] == sc.Escape(s[1..]);
    }
  }
}
