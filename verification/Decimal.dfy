/** Decimal notation, as digit values; each printer picks its own characters. */
module Decimal {

  type Digit = d: nat | d < 10

  function Digits(n: nat): (r: seq<Digit>)
    ensures r != []
  {
    if n < 10 then [n] else Digits(n / 10) + [n % 10]
  }

  function Value(ds: seq<Digit>): nat
  {
    if ds == [] then 0 else 10 * Value(ds[..|ds| - 1]) + ds[|ds| - 1]
  }

  lemma {:induction false} ValueOfDigits(n: nat)
    ensures Value(Digits(n)) == n
  {
    if n >= 10 {
      var init := Digits(n / 10);
      assert Digits(n)[..|init|] == init;
      ValueOfDigits(n / 10);
    }
  }

  /** Each digit counts for its power of ten, and no number but 0 begins with a zero. */
  lemma {:induction false} DigitsExact(n: nat)
    ensures Value([1, 2, 0]) == 120 && Digits(120) == [1, 2, 0]
    ensures n > 0 ==> Digits(n)[0] != 0
  {
    assert [1, 2, 0][..2] == [1, 2] && [1, 2][..1] == [1] && [1][..0] == [];
    assert Value([1]) == 1 && Value([1, 2]) == 12;
    assert Digits(12) == [1, 2];
    LeadingDigit(n);
  }

  lemma {:induction false} LeadingDigit(n: nat)
    ensures n > 0 ==> Digits(n)[0] != 0
  {
    if n >= 10 {
      LeadingDigit(n / 10);
    }
  }
}
