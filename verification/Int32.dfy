/**
 * The 32-bit arithmetic of the compiled kernel.  C leaves signed overflow
 * undefined; the i386 instructions wrap around, and so do the models.
 */
module Int32 {

  const INT_MIN: int := -0x8000_0000
  const INT_MAX: int := 0x7FFF_FFFF
  const RANGE32: nat := 0x1_0000_0000

  type uint32 = x: int | 0 <= x < 0x1_0000_0000

  predicate Fits(x: int) { INT_MIN <= x <= INT_MAX }

  /** What is left of `x` in an `int` or a `long`. */
  function Wrapped(x: int): (r: int)
    ensures Fits(r) && (Fits(x) <==> r == x)
  {
    (x - INT_MIN) % RANGE32 + INT_MIN
  }

  /** Turns around the number circle do not show. */
  lemma WrappedTurns(x: int, turns: int)
    ensures Wrapped(x + turns * RANGE32) == Wrapped(x)
  {
    var q := (x - INT_MIN) / RANGE32;
    assert x + turns * RANGE32 - INT_MIN == (q + turns) * RANGE32 + (x - INT_MIN) % RANGE32;
  }

  lemma WrappedTurn(x: int) returns (turns: int)
    ensures x == Wrapped(x) + turns * RANGE32
  {
    turns := (x - INT_MIN) / RANGE32;
  }

  /** One more digit, on a number that has wrapped already. */
  lemma WrappedDigit(v: int, base: int, d: int)
    ensures Wrapped(Wrapped(v) * base + d) == Wrapped(v * base + d)
  {
    hide Wrapped;
    var turns := WrappedTurn(v);
    WrappedTurns(Wrapped(v) * base + d, turns * base);
    assert v * base + d == Wrapped(v) * base + d + turns * base * RANGE32;
  }

  lemma WrappedMinus(v: int)
    ensures Wrapped(-Wrapped(v)) == Wrapped(-v)
  {
    hide Wrapped;
    var turns := WrappedTurn(v);
    WrappedTurns(-v, turns);
  }

  /** The same 32 bits. */
  lemma WrappedBits(x: int)
    ensures Wrapped(x) % RANGE32 == x % RANGE32
  {
  }
}
