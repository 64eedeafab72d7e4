// Go's 64-bit integers: wrapping addition and division that truncates toward zero.

module Int64 {
  const MAX := 0x7FFF_FFFF_FFFF_FFFF

  /** The value a 64-bit integer holds after an operation whose exact result is x. */
  function Wrap(x: int): int {
    (x + 0x8000_0000_0000_0000) % 0x1_0000_0000_0000_0000 - 0x8000_0000_0000_0000
  }

  function Abs(x: int): nat { if x < 0 then -x else x }

  function Quot(a: int, b: int): int
    requires b != 0
  {
    var q := Abs(a) / Abs(b);
    if (a < 0) == (b < 0) then q else -q
  }

  lemma WrapExact(x: int)
    ensures Wrap(x) == x <==> -MAX - 1 <= x <= MAX
  {
  }

  /** A multiple of 2^64 away, and in the range of a 64-bit integer. */
  lemma WrapMeaning(x: int)
    ensures -9_223_372_036_854_775_808 <= Wrap(x) <= 9_223_372_036_854_775_807
    ensures exists k :: x == Wrap(x) + k * 18_446_744_073_709_551_616
  {
    var k := (x + 0x8000_0000_0000_0000) / 0x1_0000_0000_0000_0000;
    assert x == Wrap(x) + k * 18_446_744_073_709_551_616;
  }

  /** The remainder is smaller than the divisor and has the sign of the dividend. */
  lemma QuotMeaning(a: int, b: int)
    requires b != 0
    ensures var r := a - Quot(a, b) * b;
            Abs(r) < Abs(b) && (a >= 0 ==> r >= 0) && (a <= 0 ==> r <= 0)
  {
    var q, m := Abs(a) / Abs(b), Abs(a) % Abs(b);
    assert Abs(a) == q * Abs(b) + m;
    assert Quot(a, b) * b == if a < 0 then -(q * Abs(b)) else q * Abs(b) by {
      Signs(q, b);
    }
  }

  lemma Signs(q: int, b: int)
    ensures (-q) * b == -(q * b) && q * (-b) == -(q * b)
  {
  }
}
