/** The filter test of the two read accessors: `id.toString().includes(filter)`,
    with `toString` on an integer written out as its decimal representation
    and `includes` as a contiguous-substring search. */
module Decimal {

  predicate IsDigit(c: char)
  {
    '0' <= c <= '9'
  }

  predicate AllDigits(s: string)
  {
    forall i | 0 <= i < |s| :: IsDigit(s[i])
  }

  function DigitChar(d: nat): char
    requires d < 10
  {
    ('0' as int + d) as char
  }

  /** The decimal digits of `n`, most significant first. */
  function NatString(n: nat): string
    decreases n
  {
    (if n < 10 then "" else NatString(n / 10)) + [DigitChar(n % 10)]
  }

  /** `Number.prototype.toString()` of an integer-valued number. */
  function IntString(n: int): string
  {
    if n < 0 then "-" + NatString(-n) else NatString(n)
  }

  /** The value of a string of decimal digits: the reading direction of
      `NatString`. */
  function DigitsValue(s: string): nat
    requires AllDigits(s)
  {
    if s == [] then 0
    else 10 * DigitsValue(s[..|s| - 1]) + (s[|s| - 1] as int - '0' as int)
  }

  lemma DigitCharValue(d: nat)
    requires d < 10
    ensures IsDigit(DigitChar(d))
    ensures DigitChar(d) as int - '0' as int == d
  {
  }

  /** `NatString` writes at least one character, only digits, and no
      leading zero. */
  lemma {:induction false} NatStringDigits(n: nat)
    ensures |NatString(n)| >= 1 && AllDigits(NatString(n))
    ensures NatString(n)[0] == '0' ==> n == 0
    decreases n
  {
    var d := n % 10;
    DigitCharValue(d);
    if n >= 10 {
      NatStringDigits(n / 10);
      var t := NatString(n / 10);
      var s := NatString(n);
      assert s == t + [DigitChar(d)];
      assert s[0] == t[0];
      forall i | 0 <= i < |s| ensures IsDigit(s[i]) {
        if i < |t| {
          assert s[i] == t[i];
        }
      }
    }
  }

  /** Reading the digits `NatString` writes gives the number back. */
  lemma {:induction false} NatStringValue(n: nat)
    ensures AllDigits(NatString(n)) && DigitsValue(NatString(n)) == n
    decreases n
  {
    NatStringDigits(n);
    var q, d := n / 10, n % 10;
    DigitCharValue(d);
    var s := NatString(n);
    if n >= 10 {
      NatStringValue(q);
      assert s[..|s| - 1] == NatString(q);
      assert s[|s| - 1] == DigitChar(d);
    }
  }

  /** The first character of `IntString(n)` tells the sign of `n`. */
  lemma IntStringSign(n: int)
    ensures |IntString(n)| >= 1
    ensures IntString(n)[0] == '-' <==> n < 0
  {
    NatStringDigits(if n < 0 then -n else n);
    if n >= 0 {
      assert IsDigit(NatString(n)[0]);
    }
  }

  /** Distinct ids have distinct decimal representations. */
  lemma IntStringInjective(a: int, b: int)
    requires IntString(a) == IntString(b)
    ensures a == b
  {
    IntStringSign(a);
    IntStringSign(b);
    NatStringValue(if a < 0 then -a else a);
    NatStringValue(if b < 0 then -b else b);
    if a < 0 {
      assert NatString(-a) == IntString(a)[1..];
      assert NatString(-b) == IntString(b)[1..];
    }
  }

  /** `sub` occurs in `s` starting at position `i`. */
  predicate OccursAt(s: string, sub: string, i: int)
  {
    0 <= i && i + |sub| <= |s| && s[i..i + |sub|] == sub
  }

  /** `String.prototype.includes`: the search tries each start position in
      turn. */
  function Contains(s: string, sub: string): bool
    decreases |s|
  {
    if |sub| > |s| then false
    else if s[..|sub|] == sub then true
    else assert s != []; Contains(s[1..], sub)
  }

  /** `Contains` finds exactly the positions where `sub` occurs. */
  lemma {:induction false} ContainsIff(s: string, sub: string)
    ensures Contains(s, sub) <==> exists i :: OccursAt(s, sub, i)
    decreases |s|
  {
    if |sub| > |s| {
    } else if s[..|sub|] == sub {
      assert OccursAt(s, sub, 0);
    } else {
      ContainsIff(s[1..], sub);
      if exists i :: OccursAt(s[1..], sub, i) {
        var i :| OccursAt(s[1..], sub, i);
        assert s[1..][i..i + |sub|] == s[i + 1..i + 1 + |sub|];
        assert OccursAt(s, sub, i + 1);
      }
      if exists i :: OccursAt(s, sub, i) {
        var i :| OccursAt(s, sub, i);
        assert i != 0;
        assert s[1..][i - 1..i - 1 + |sub|] == s[i..i + |sub|];
        assert OccursAt(s[1..], sub, i - 1);
      }
    }
  }

  /** The filter of `/items` and `/selected`: an empty filter lets every id
      through, otherwise the id's decimal form must contain it. */
  predicate Matches(id: int, filter: string)
  {
    filter == "" || Contains(IntString(id), filter)
  }

  /** The empty-filter shortcut agrees with `includes`, so an id matches
      exactly when the filter occurs in its decimal representation. */
  lemma MatchesIff(id: int, filter: string)
    ensures Matches(id, filter) <==> exists i :: OccursAt(IntString(id), filter, i)
  {
    ContainsIff(IntString(id), filter);
    if filter == "" {
      assert OccursAt(IntString(id), filter, 0);
    }
  }
}
