/** Numerals: the digits `printnum` produces, and the value `strtol` accumulates. */
module Digits {

  lemma DivMod(n: nat, base: nat)
    requires 2 <= base
    ensures n / base * base + n % base == n
    ensures 0 < n ==> n / base < n
    ensures 0 <= n % base < base
  {
    var q := n / base;
    assert q * base == 2 * q + q * (base - 2);
  }

  /** The digits of `n` in `base`, most significant first and without leading zeros. */
  function Numeral(n: nat, base: nat): (ds: seq<nat>)
    requires 2 <= base
    ensures 0 < |ds|
    decreases n
  {
    DivMod(n, base);
    if n < base then [n] else Numeral(n / base, base) + [n % base]
  }

  lemma {:induction false} NumeralShort(n: nat, base: nat)
    requires 2 <= base
    ensures |Numeral(n, base)| <= if n == 0 then 1 else n
    decreases n
  {
    if base <= n {
      DivMod(n, base);
      NumeralShort(n / base, base);
    }
  }

  ghost predicate Below(ds: seq<nat>, base: nat) {
    forall i | 0 <= i < |ds| :: ds[i] < base
  }

  lemma {:induction false} NumeralLead(n: nat, base: nat)
    requires 2 <= base && 0 < n
    ensures Numeral(n, base)[0] != 0
    decreases n
  {
    if base <= n {
      DivMod(n, base);
      NumeralLead(n / base, base);
    }
  }

  lemma {:induction false} NumeralBelow(n: nat, base: nat)
    requires 2 <= base
    ensures Below(Numeral(n, base), base)
    decreases n
  {
    DivMod(n, base);
    if base <= n {
      NumeralBelow(n / base, base);
    }
  }

  /** The number that digits stand for when read from the left, starting from `v`. */
  function Value(v: nat, ds: seq<nat>, base: nat): nat
    decreases |ds|
  {
    if ds == [] then v else Value(v * base + ds[0], ds[1..], base)
  }

  lemma {:induction false} ValueConcat(v: nat, a: seq<nat>, b: seq<nat>, base: nat)
    ensures Value(v, a + b, base) == Value(Value(v, a, base), b, base)
    decreases |a|
  {
    if a == [] {
      assert a + b == b;
    } else {
      assert (a + b)[1..] == a[1..] + b;
      ValueConcat(v * base + a[0], a[1..], b, base);
    }
  }

  lemma {:induction false} ValueGrows(v: nat, ds: seq<nat>, base: nat)
    requires 1 <= base
    ensures v <= Value(v, ds, base)
    decreases |ds|
  {
    if ds != [] {
      ValueGrows(v * base + ds[0], ds[1..], base);
      assert v * base == v + v * (base - 1);
    }
  }

  lemma ValueFirst(v: nat, ds: seq<nat>, base: nat)
    requires ds != []
    ensures Value(v, ds, base) == Value(v * base + ds[0], ds[1..], base)
  {
  }

  lemma ValueOne(v: nat, d: nat, base: nat)
    ensures Value(v, [d], base) == v * base + d
  {
  }

  lemma {:induction false} NumeralValue(n: nat, base: nat)
    requires 2 <= base
    ensures Value(0, Numeral(n, base), base) == n
    decreases n
  {
    if base <= n {
      hide Value;
      DivMod(n, base);
      NumeralValue(n / base, base);
      ValueConcat(0, Numeral(n / base, base), [n % base], base);
      ValueOne(n / base, n % base, base);
    } else {
      ValueOne(0, n, base);
    }
  }

  /** Zeros in front change nothing. */
  lemma {:induction false} LeadingZeros(zeros: seq<nat>, ds: seq<nat>, base: nat)
    requires forall i | 0 <= i < |zeros| :: zeros[i] == 0
    ensures Value(0, zeros + ds, base) == Value(0, ds, base)
    decreases |zeros|
  {
    if zeros == [] {
      assert zeros + ds == ds;
    } else {
      assert (zeros + ds)[1..] == zeros[1..] + ds;
      LeadingZeros(zeros[1..], ds, base);
    }
  }
}
