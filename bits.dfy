/** Bits of non-negative integers and of two's-complement `long`s, without
    bit-vector arithmetic: bit `k` of `x` is read by halving `k` times. */
module Bits {
  import opened JavaLang

  function Pow2(k: nat): (r: nat)
    ensures r >= 1
  {
    if k == 0 then 1 else 2 * Pow2(k - 1)
  }

  /** Bit `k` of `x` (bit 0 is the least significant). */
  predicate Bit(x: nat, k: nat)
  {
    if k == 0 then x % 2 == 1 else Bit(x / 2, k - 1)
  }

  /** The number whose little-endian bits are `bs`. */
  function FromBits(bs: seq<bool>): (r: nat)
  {
    if |bs| == 0 then 0 else (if bs[0] then 1 else 0) + 2 * FromBits(bs[1..])
  }

  /** The low `n` bits of `x`, least significant first. */
  function ToBits(x: nat, n: nat): (bs: seq<bool>)
    ensures |bs| == n
  {
    seq(n, k requires 0 <= k < n => Bit(x, k))
  }

  lemma {:induction false} Pow2Monotone(i: nat, j: nat)
    requires i <= j
    ensures Pow2(i) <= Pow2(j)
  {
    if i < j {
      Pow2Monotone(i, j - 1);
    }
  }

  lemma {:induction false} Pow2Add(i: nat, j: nat)
    ensures Pow2(i + j) == Pow2(i) * Pow2(j)
  {
    if j > 0 {
      Pow2Add(i, j - 1);
      calc {
        Pow2(i + j);
        2 * Pow2(i + j - 1);
        2 * (Pow2(i) * Pow2(j - 1));
        Pow2(i) * (2 * Pow2(j - 1));
      }
    }
  }

  lemma Pow2Square(k: nat, v: nat)
    requires Pow2(k) == v
    ensures Pow2(k + k) == v * v
  {
    Pow2Add(k, k);
  }

  /** The two powers of two that bound a Java `long`. */
  lemma Pow2Long()
    ensures Pow2(63) == 0x8000_0000_0000_0000
    ensures Pow2(64) == 0x1_0000_0000_0000_0000
  {
    assert Pow2(1) == 2;
    Pow2Square(1, 2);
    Pow2Square(2, 4);
    Pow2Square(4, 16);
    Pow2Square(8, 256);
    Pow2Square(16, 0x1_0000);
    Pow2Square(32, 0x1_0000_0000);
    assert Pow2(31) == 0x8000_0000 by {
      assert Pow2(32) == 2 * Pow2(31);
    }
    Pow2Square(31, 0x8000_0000);
    assert Pow2(63) == 2 * Pow2(62);
  }

  /** Every bit of zero is clear. */
  lemma {:induction false} BitOfZero(k: nat)
    ensures !Bit(0, k)
  {
    if k > 0 {
      BitOfZero(k - 1);
    }
  }

  /** A number below 2^n has no bit at position n or above. */
  lemma {:induction false} BitAbove(x: nat, n: nat, k: nat)
    requires x < Pow2(n) && n <= k
    ensures !Bit(x, k)
  {
    if n == 0 {
      assert x == 0;
      BitOfZero(k);
    } else {
      BitAbove(x / 2, n - 1, k - 1);
    }
  }

  lemma {:induction false} FromBitsBound(bs: seq<bool>)
    ensures FromBits(bs) < Pow2(|bs|)
  {
    if |bs| > 0 {
      FromBitsBound(bs[1..]);
    }
  }

  /** Bit `k` of FromBits(bs) is `bs[k]`, and clear beyond `bs`. */
  lemma {:induction false} FromBitsBit(bs: seq<bool>, k: nat)
    ensures Bit(FromBits(bs), k) == (k < |bs| && bs[k])
  {
    if |bs| == 0 {
      BitOfZero(k);
    } else if k > 0 {
      var x := FromBits(bs);
      assert x / 2 == FromBits(bs[1..]);
      FromBitsBit(bs[1..], k - 1);
    }
  }

  /** Below 2^n a number is its own low `n` bits read back. */
  lemma {:induction false} FromBitsToBits(x: nat, n: nat)
    requires x < Pow2(n)
    ensures FromBits(ToBits(x, n)) == x
  {
    if n > 0 {
      var bs := ToBits(x, n);
      assert bs[1..] == ToBits(x / 2, n - 1);
      FromBitsToBits(x / 2, n - 1);
    }
  }

  /** Two numbers below 2^n that agree on their low `n` bits are equal. */
  lemma BitsDetermine(x: nat, y: nat, n: nat)
    requires x < Pow2(n) && y < Pow2(n)
    requires forall k :: 0 <= k < n ==> Bit(x, k) == Bit(y, k)
    ensures x == y
  {
    assert ToBits(x, n) == ToBits(y, n);
    FromBitsToBits(x, n);
    FromBitsToBits(y, n);
  }

  /** The low `k + 1` bits of a multiple of 2^(k+1) are clear; in particular bit `k`. */
  lemma {:induction false} BitOfMultiple(m: nat, k: nat)
    ensures !Bit(Pow2(k + 1) * m, k)
  {
    if k > 0 {
      calc {
        Pow2(k + 1) * m / 2;
        (2 * (Pow2(k) * m)) / 2;
        Pow2(k) * m;
      }
      BitOfMultiple(m, k - 1);
    }
  }

  /** `x | (1 << k)` on a non-negative number. */
  function SetBit(x: nat, k: nat): (r: nat)
  {
    if Bit(x, k) then x else x + Pow2(k)
  }

  /** Setting bit `k` sets exactly that bit. */
  lemma {:induction false} SetBitBits(x: nat, k: nat, j: nat)
    ensures Bit(SetBit(x, k), j) == (j == k || Bit(x, j))
  {
    if !Bit(x, k) {
      if k == 0 {
        assert x % 2 == 0;
        if j > 0 {
          assert (x + 1) / 2 == x / 2;
        }
      } else if j == 0 {
        assert (x + Pow2(k)) % 2 == x % 2;
      } else {
        assert (x + Pow2(k)) / 2 == x / 2 + Pow2(k - 1);
        SetBitBits(x / 2, k - 1, j - 1);
      }
    }
  }

  /** Setting a bit below position `n` keeps a number below 2^n. */
  lemma {:induction false} SetBitBound(x: nat, k: nat, n: nat)
    requires x < Pow2(n) && k < n
    ensures SetBit(x, k) < Pow2(n)
  {
    if !Bit(x, k) {
      var h, l := x / 2, x % 2;
      assert x == 2 * h + l;
      assert Pow2(n) == 2 * Pow2(n - 1);
      if k == 0 {
        assert l == 0;
      } else {
        assert h < Pow2(n - 1);
        assert !Bit(h, k - 1);
        SetBitBound(h, k - 1, n - 1);
        assert h + Pow2(k - 1) < Pow2(n - 1);
        assert x + Pow2(k) == 2 * (h + Pow2(k - 1)) + l;
      }
    }
  }

  /** The 64-bit two's-complement pattern of a `long`, read as unsigned. */
  function Unsigned(v: Long): (u: nat)
    ensures u < 0x1_0000_0000_0000_0000
    ensures (u < 0x8000_0000_0000_0000) == (v >= 0)
  {
    if v < 0 then v + 0x1_0000_0000_0000_0000 else v
  }

  /** `(v & (1L << k)) != 0` for `k < 64`. */
  predicate LongBit(v: Long, k: nat)
  {
    Bit(Unsigned(v), k)
  }

  /** `v | (1L << k)` for `k < 63`: sets bit `k`, leaves the sign alone. */
  function LongSetBit(v: Long, k: nat): (r: Long)
    requires k < 63
    ensures v >= 0 ==> r == SetBit(v, k)
    ensures forall j :: LongBit(r, j) == (j == k || LongBit(v, j))
  {
    Pow2Long();
    Pow2Monotone(k, 63);
    var u := Unsigned(v);
    if v >= 0 then
      SetBitBound(u, k, 63);
      var w := SetBit(u, k);
      assert Unsigned(w) == w;
      assert forall j :: Bit(w, j) == (j == k || Bit(u, j)) by {
        forall j { SetBitBits(u, k, j); }
      }
      w
    else
      SetBitBound(u, k, 64);
      var w := SetBit(u, k);
      assert w >= u;
      assert Unsigned(w - 0x1_0000_0000_0000_0000) == w;
      assert forall j :: Bit(w, j) == (j == k || Bit(u, j)) by {
        forall j { SetBitBits(u, k, j); }
      }
      w - 0x1_0000_0000_0000_0000
  }
}
