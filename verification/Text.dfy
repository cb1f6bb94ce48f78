// Decimal numerals, as used in generated names and in encoded integers.
module Text {

  function Digit(d: nat): char
    requires d < 10
  {
    "0123456789"[d]
  }

  function Decimal(n: nat): (s: string)
    ensures |s| > 0
    ensures forall c :: c in s ==> '0' <= c <= '9'
  {
    if n < 10 then [Digit(n)] else Decimal(n / 10) + [Digit(n % 10)]
  }

  predicate Digits(s: string) {
    forall i :: 0 <= i < |s| ==> '0' <= s[i] <= '9'
  }

  /** What a string of digits stands for, the last digit counting ones. */
  function PlaceValue(s: string): nat
    requires Digits(s)
  {
    if s == "" then 0
    else 10 * PlaceValue(s[..|s| - 1]) + (s[|s| - 1] as int - '0' as int)
  }

  /** A numeral without leading zeros. */
  predicate Shortest(s: string) {
    s != "" && Digits(s) && (s[0] == '0' ==> s == "0")
  }

  lemma {:induction false} ShortestPositive(s: string)
    requires Shortest(s) && s != "0"
    ensures PlaceValue(s) > 0
  {
    if |s| > 1 {
      var front := s[..|s| - 1];
      assert Digits(front) && front[0] == s[0];
      ShortestPositive(front);
    }
  }

  lemma {:induction false} DigitReads(d: nat)
    requires d < 10
    ensures '0' <= Digit(d) <= '9' && Digit(d) as int - '0' as int == d
  {
  }

  lemma {:induction false} DecimalReads(n: nat)
    ensures Shortest(Decimal(n)) && PlaceValue(Decimal(n)) == n
    ensures n > 0 ==> Decimal(n)[0] != '0'
  {
    hide Digit;
    var s := Decimal(n);
    assert forall i :: 0 <= i < |s| ==> s[i] in s;
    DigitReads(n % 10);
    if n < 10 {
      assert s[..0] == "";
    } else {
      DecimalReads(n / 10);
      assert s[..|s| - 1] == Decimal(n / 10);
    }
  }

  // The numeral of a number is the one string of digits without a leading zero that stands for it.
  lemma {:induction false} DecimalExactly(n: nat, s: string)
    ensures s == Decimal(n) <==> Shortest(s) && PlaceValue(s) == n
  {
    hide PlaceValue, Decimal;
    DecimalReads(n);
    if Shortest(s) && PlaceValue(s) == n {
      ShortestIsDecimal(s);
    }
  }

  lemma {:induction false} ShortestIsDecimal(s: string)
    requires Shortest(s)
    ensures s == Decimal(PlaceValue(s))
  {
    hide Digit;
    var front, d := s[..|s| - 1], s[|s| - 1] as int - '0' as int;
    DigitReads(d);
    assert s == front + [Digit(d)];
    if |s| == 1 {
      assert front == "";
    } else {
      assert Digits(front) && front[0] == s[0];
      ShortestIsDecimal(front);
      ShortestPositive(front);
      assert PlaceValue(s) / 10 == PlaceValue(front) && PlaceValue(s) % 10 == d;
    }
  }

  lemma {:induction false} DecimalInjective(m: nat, n: nat)
    requires Decimal(m) == Decimal(n)
    ensures m == n
  {
    DecimalReads(m);
    DecimalReads(n);
  }
}
