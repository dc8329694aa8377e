/** The key the lab-4 collection derives for a team,
    "<Organization>_<RegistrationNumber>", with the number written the way
    Int32.ToString writes it. Since the number's text never contains an
    underscore, the last underscore of a key separates the two parts, so two
    teams share a key exactly when they agree on both fields. */
module Keys {
  import opened Teams

  function DigitChar(d: nat): char
    requires d < 10
  {
    (48 + d) as char
  }

  /** A non-empty run of decimal digits with no leading zero: the form
      Int32.ToString gives the magnitude of a number. */
  predicate Canonical(s: string)
  {
    && |s| > 0
    && (forall i :: 0 <= i < |s| ==> '0' <= s[i] <= '9')
    && (|s| > 1 ==> s[0] != '0')
  }

  /** The number a run of decimal digits denotes, most significant first. */
  function DigitsValue(s: string): nat
    requires forall i :: 0 <= i < |s| ==> '0' <= s[i] <= '9'
  {
    if |s| == 0 then 0 else 10 * DigitsValue(s[..|s| - 1]) + (s[|s| - 1] as int - 48)
  }

  /** Decimal digits of a natural number, most significant first. */
  function NatToString(n: nat): (s: string)
    ensures |s| > 0
    ensures forall i :: 0 <= i < |s| ==> '0' <= s[i] <= '9'
    ensures n >= 10 <==> |s| >= 2
  {
    if n < 10 then [DigitChar(n)] else NatToString(n / 10) + [DigitChar(n % 10)]
  }

  /** NatToString writes `n` canonically: its digits denote `n` and the
      first is not a zero unless it is the only one. */
  lemma {:induction false} NatToStringDenotes(n: nat)
    ensures Canonical(NatToString(n)) && DigitsValue(NatToString(n)) == n
  {
    var s := NatToString(n);
    if n < 10 {
      assert s[..0] == [];
    } else {
      var prefix := NatToString(n / 10);
      NatToStringDenotes(n / 10);
      assert s[..|s| - 1] == prefix;
      assert s[0] == prefix[0];
    }
  }

  /** Int32.ToString: a negative number is written as a minus sign in front
      of the text of its negation. */
  function IntToString(n: int): (s: string)
    ensures |s| > 0
    ensures s[0] == '-' <==> n < 0
    ensures '_' !in s
    decreases if n < 0 then 1 else 0
  {
    if n < 0 then "-" + IntToString(-n) else NatToString(n)
  }

  /** IntToString writes the canonical digits of the magnitude, after a
      minus sign exactly when the number is negative. */
  lemma IntToStringDenotes(n: int)
    ensures n >= 0 ==> Canonical(IntToString(n)) && DigitsValue(IntToString(n)) == n
    ensures n < 0 ==> Canonical(IntToString(n)[1..]) && DigitsValue(IntToString(n)[1..]) == -n
  {
    if n < 0 {
      NatToStringDenotes(-n);
      assert IntToString(-n) == NatToString(-n);
      assert IntToString(n)[1..] == NatToString(-n);
    } else {
      NatToStringDenotes(n);
    }
  }

  lemma {:induction false} NatToStringInjective(a: nat, b: nat)
    requires NatToString(a) == NatToString(b)
    ensures a == b
  {
    var s := NatToString(a);
    if a >= 10 {
      assert b >= 10;
      assert s[..|s| - 1] == NatToString(a / 10);
      assert s[..|s| - 1] == NatToString(b / 10);
      NatToStringInjective(a / 10, b / 10);
      assert DigitChar(a % 10) == s[|s| - 1] == DigitChar(b % 10);
      assert (DigitChar(a % 10) as int) == 48 + a % 10;
    } else {
      assert (DigitChar(a) as int) == 48 + a;
      assert (DigitChar(b) as int) == 48 + b;
    }
  }

  lemma IntToStringInjective(a: int, b: int)
    requires IntToString(a) == IntToString(b)
    ensures a == b
  {
    if a < 0 {
      assert IntToString(a)[1..] == NatToString(-a);
      assert IntToString(b)[1..] == NatToString(-b);
      NatToStringInjective(-a, -b);
    } else {
      NatToStringInjective(a, b);
    }
  }

  /** The key GenerateKeyForTeam builds. */
  function KeyOf(t: Team): string
  {
    t.organization + "_" + IntToString(t.registrationNumber)
  }

  /** The index of the last underscore of `s`, or -1 when there is none. */
  function LastUnderscore(s: string): (r: int)
    ensures -1 <= r < |s|
  {
    if |s| == 0 then -1
    else if s[|s| - 1] == '_' then |s| - 1
    else LastUnderscore(s[..|s| - 1])
  }

  /** In "<org>_<digits>" the last underscore is the separator. */
  lemma {:induction false} SeparatorIsLastUnderscore(org: string, digits: string)
    requires '_' !in digits
    ensures LastUnderscore(org + "_" + digits) == |org|
  {
    var s := org + "_" + digits;
    if |digits| > 0 {
      var shorter := digits[..|digits| - 1];
      assert s[|s| - 1] == digits[|digits| - 1];
      assert s[..|s| - 1] == org + "_" + shorter;
      assert forall c :: c in shorter ==> c in digits;
      SeparatorIsLastUnderscore(org, shorter);
    }
  }

  /** Two teams share a derived key exactly when organization and number agree. */
  lemma KeyOfInjective(a: Team, b: Team)
    ensures KeyOf(a) == KeyOf(b) <==> a == b
  {
    if KeyOf(a) == KeyOf(b) {
      var s := KeyOf(a);
      var da := IntToString(a.registrationNumber);
      var db := IntToString(b.registrationNumber);
      SeparatorIsLastUnderscore(a.organization, da);
      SeparatorIsLastUnderscore(b.organization, db);
      assert |a.organization| == |b.organization|;
      assert a.organization == s[..|a.organization|] == b.organization;
      assert da == s[|a.organization| + 1..] == db;
      IntToStringInjective(a.registrationNumber, b.registrationNumber);
    }
  }

  /** Equal research teams (Team.Equals) derive the same key and vice versa. */
  lemma KeyOfMatchesSameTeam(a: ResearchTeam, b: ResearchTeam)
    ensures KeyOf(a.base) == KeyOf(b.base) <==> SameTeam(a, b)
  {
    KeyOfInjective(a.base, b.base);
  }
}
