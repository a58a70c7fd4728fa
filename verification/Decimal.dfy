/** Decimal numerals. */
module Decimal {

  function Digit(d: nat): (r: char)
    requires d < 10
  {
    '0' + d as char
  }

  /** The decimal numeral of a number. */
  function Print(n: nat): (r: string) {
    if n < 10 then [Digit(n)] else Print(n / 10) + [Digit(n % 10)]
  }

  predicate AllDigits(s: string) {
    forall i :: 0 <= i < |s| ==> '0' <= s[i] <= '9'
  }

  /** The number a string of digits stands for. */
  function Parse(s: string): (r: nat)
    requires AllDigits(s)
  {
    if s == [] then 0
    else Parse(s[..|s| - 1]) * 10 + (s[|s| - 1] - '0') as nat
  }

  lemma {:induction false} ParsePrint(n: nat)
    ensures Print(n) != [] && AllDigits(Print(n)) && Parse(Print(n)) == n
  {
    if n < 10 {
      assert [Digit(n)][..0] == [];
    } else {
      ParsePrint(n / 10);
      var init, last := Print(n / 10), Digit(n % 10);
      assert (init + [last])[..|init|] == init;
    }
  }

  /** One more digit: the numeral of ten times a number and a digit. */
  lemma {:induction false} PrintOneMore(n: nat, d: nat)
    requires d < 10
    ensures Print(10 * n + d) == (if n == 0 then "" else Print(n)) + ["0123456789"[d]]
  {
    assert (10 * n + d) / 10 == n && (10 * n + d) % 10 == d;
    assert Digit(d) == "0123456789"[d];
  }

  /** Digits without a leading zero, except for zero itself. */
  predicate Canonical(s: string) {
    s != [] && AllDigits(s) && (|s| > 1 ==> s[0] != '0')
  }

  lemma {:induction false} PrintIsCanonical(n: nat)
    ensures Canonical(Print(n))
    ensures n > 0 ==> Print(n)[0] != '0'
  {
    ParsePrint(n);
    if n >= 10 {
      PrintIsCanonical(n / 10);
    }
  }

  lemma {:induction false} ParsePositive(s: string)
    requires Canonical(s) && s[0] != '0'
    ensures Parse(s) > 0
  {
    if |s| > 1 {
      ParsePositive(s[..|s| - 1]);
    }
  }

  /** The numerals are exactly the canonical digit strings, one for each number. */
  lemma {:induction false} PrintParse(s: string)
    requires AllDigits(s)
    ensures Print(Parse(s)) == s <==> Canonical(s)
  {
    if Canonical(s) {
      if |s| > 1 {
        var init, d := s[..|s| - 1], (s[|s| - 1] - '0') as nat;
        PrintParse(init);
        ParsePositive(init);
        assert Parse(s) / 10 == Parse(init) && Parse(s) % 10 == d;
        assert s == init + [Digit(d)];
      } else {
        assert s[..0] == [];
      }
    }
    PrintIsCanonical(Parse(s));
  }
}
