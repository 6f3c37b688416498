/** Integer arithmetic shared by the paginators and the sitemap index. */
module Arith {

  /**
   * `int(ceil(a / float(b)))` for a non-negative count `a` and a positive
   * divisor `b`, computed exactly in integers.
   */
  function CeilDiv(a: nat, b: int): (r: nat)
    requires b > 0
    ensures r == 0 <==> a == 0
    ensures a <= b ==> r <= 1
  {
    (a + b - 1) / b
  }

  /** `CeilDiv(a, b)` is the least `r` with `a <= r * b`. */
  lemma CeilDivBrackets(a: nat, b: int)
    requires b > 0
    ensures (CeilDiv(a, b) - 1) * b < a <= CeilDiv(a, b) * b
  {
    var q := (a + b - 1) / b;
    assert a + b - 1 == q * b + (a + b - 1) % b;
    assert (q - 1) * b == q * b - b;
  }

  /** No other number brackets `a` that way: the ceiling is unique. */
  lemma {:induction false} CeilDivUnique(a: nat, b: int, r: int)
    requires b > 0
    requires (r - 1) * b < a <= r * b
    ensures r == CeilDiv(a, b)
  {
    var c: int := CeilDiv(a, b);
    CeilDivBrackets(a, b);
    MulLess(r - 1, c, b);
    MulLess(c - 1, r, b);
  }

  /** Multiplying by a positive number keeps the strict order of the factors. */
  lemma MulLess(x: int, y: int, b: int)
    requires b > 0
    ensures x * b < y * b <==> x < y
  {
    assert y * b - x * b == (y - x) * b;
    if x < y {
      MulAtLeast(y - x, b);
    } else {
      MulAtLeast(x - y + 1, b);
      assert (x - y + 1) * b == (x - y) * b + b;
    }
  }

  lemma {:induction false} MulAtLeast(d: int, b: int)
    requires d >= 1 && b > 0
    ensures d * b >= b
    decreases d
  {
    if d > 1 {
      MulAtLeast(d - 1, b);
      assert d * b == (d - 1) * b + b;
    }
  }

  lemma MulNonNegative(x: int, y: int)
    ensures x >= 0 && y >= 0 ==> x * y >= 0
  {
  }

  lemma NextMultiple(k: int, b: int)
    ensures k * b == (k - 1) * b + b
  {
  }
}
