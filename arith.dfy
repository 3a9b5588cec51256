/** Facts about integer products that the solver does not find unaided. */
module Arith {

  lemma MulSucc(x: int, n: int)
    ensures (x + 1) * n == x * n + n
  {
  }

  lemma MulSub(x: int, y: int, n: int)
    ensures (x - y) * n == x * n - y * n
  {
  }

  lemma {:induction false} MulAtLeast(d: nat, n: nat)
    requires d > 0
    ensures d * n >= n
  {
    if d > 1 {
      MulAtLeast(d - 1, n);
      MulSucc(d - 1, n);
    }
  }

  lemma MulLess(i: int, j: int, n: int)
    requires n > 0 && 0 <= i < j
    ensures i * n + n <= j * n
  {
    MulSub(j, i, n);
    MulAtLeast(j - i, n);
  }

  /** Euclidean division is determined by quotient and remainder. */
  lemma DivMod(a: int, q: int, r: int, n: int)
    requires n > 0 && 0 <= r < n && 0 <= q && a == q * n + r
    ensures a / n == q && a % n == r
  {
    var q0, r0 := a / n, a % n;
    assert a == q0 * n + r0;
    assert q0 >= 0;
    if q > q0 {
      MulLess(q0, q, n);
      assert false;
    } else if q < q0 {
      MulLess(q, q0, n);
      assert false;
    }
  }

  /** A multiple of `n` leaves no Euclidean remainder, whatever its sign. */
  lemma MultipleMod(k: int, n: int)
    requires n > 0
    ensures (k * n) % n == 0
  {
    var x := k * n;
    var q, r := x / n, x % n;
    assert x == q * n + r;
    var d := k - q;
    assert r == d * n by {
      assert k * n - q * n == (k - q) * n;
    }
    if d > 0 {
      MulAtLeast(d, n);
    } else if d < 0 {
      MulAtLeast(-d, n);
    }
  }

  lemma MulSplit(m: nat, bit: nat, rest: nat)
    ensures m * (bit + 2 * rest) == m * bit + (2 * m) * rest
  {
  }
}
