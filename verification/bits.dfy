/** Unsigned bit operations on unbounded naturals: powers of two,
    bitwise exclusive or defined bit by bit, and the facts about them the
    puzzles that shift and mix register values rely on. A 64-bit `usize`
    value is a natural below 2^64; none of these operations widen it. */
module Bits {

  function Pow2(n: nat): (r: nat)
    ensures r >= 1
  {
    if n == 0 then 1 else 2 * Pow2(n - 1)
  }

  lemma {:induction false} Pow2Add(a: nat, b: nat)
    ensures Pow2(a + b) == Pow2(a) * Pow2(b)
    decreases a
  {
    if a > 0 {
      Pow2Add(a - 1, b);
      assert Pow2(a + b) == 2 * Pow2(a - 1 + b);
    }
  }

  /** Bit `k` of `x`, counting from the least significant. */
  function Bit(x: nat, k: nat): (r: nat)
    ensures r < 2
  {
    if k == 0 then x % 2 else Bit(x / 2, k - 1)
  }

  /** `x ^ y`: the low bits combined, then the rest shifted down. */
  function Xor(x: nat, y: nat): nat
    decreases x + y
  {
    if x == 0 && y == 0 then 0 else 2 * Xor(x / 2, y / 2) + (x + y) % 2
  }

  /** Exclusive or is bitwise: each bit of `x ^ y` is set exactly when
      one of the two operands has it set. */
  lemma {:induction false} XorBits(x: nat, y: nat, k: nat)
    ensures Bit(Xor(x, y), k) == (Bit(x, k) + Bit(y, k)) % 2
    decreases k
  {
    XorHalf(x, y);
    if k > 0 {
      XorBits(x / 2, y / 2, k - 1);
      assert Bit(Xor(x, y), k) == Bit(Xor(x / 2, y / 2), k - 1);
    } else {
      Parity(x, y);
    }
  }

  lemma Parity(x: nat, y: nat)
    ensures (x + y) % 2 == (x % 2 + y % 2) % 2
  {
    var qx, qy := x / 2, y / 2;
    assert x == 2 * qx + x % 2;
    assert y == 2 * qy + y % 2;
    assert x + y == 2 * (qx + qy) + (x % 2 + y % 2);
  }

  /** Dropping the low bit commutes with exclusive or. */
  lemma XorHalf(x: nat, y: nat)
    ensures Xor(x, y) / 2 == Xor(x / 2, y / 2)
    ensures Xor(x, y) % 2 == (x + y) % 2
  {
    if x == 0 && y == 0 {
      assert Xor(0, 0) == 0;
    }
  }

  /** Two numbers with the same bits are equal. */
  lemma {:induction false} BitsEqual(x: nat, y: nat)
    requires forall k: nat :: Bit(x, k) == Bit(y, k)
    ensures x == y
    decreases x + y
  {
    assert Bit(x, 0) == Bit(y, 0);
    if x != 0 || y != 0 {
      forall k: nat
        ensures Bit(x / 2, k) == Bit(y / 2, k)
      {
        assert Bit(x, k + 1) == Bit(y, k + 1);
      }
      BitsEqual(x / 2, y / 2);
    }
  }

  /** Exclusive or with the same value twice gives the value back. */
  lemma XorTwice(x: nat, y: nat)
    ensures Xor(Xor(x, y), y) == x
  {
    var w := Xor(Xor(x, y), y);
    forall k: nat
      ensures Bit(w, k) == Bit(x, k)
    {
      XorTwiceBit(x, y, k);
    }
    BitsEqual(w, x);
  }

  /** Bit `k` of `x` survives exclusive or with `y` twice. */
  lemma XorTwiceBit(x: nat, y: nat, k: nat)
    ensures Bit(Xor(Xor(x, y), y), k) == Bit(x, k)
  {
    XorBits(Xor(x, y), y, k);
    XorBits(x, y, k);
  }

  lemma XorCommutes(x: nat, y: nat)
    ensures Xor(x, y) == Xor(y, x)
  {
    forall k: nat
      ensures Bit(Xor(x, y), k) == Bit(Xor(y, x), k)
    {
      XorBits(x, y, k);
      XorBits(y, x, k);
    }
    BitsEqual(Xor(x, y), Xor(y, x));
  }

  /** Exclusive or never sets a bit above both operands' widths. */
  lemma {:induction false} XorBound(x: nat, y: nat, k: nat)
    requires x < Pow2(k) && y < Pow2(k)
    ensures Xor(x, y) < Pow2(k)
    decreases k
  {
    if k == 0 {
      assert x == 0 && y == 0;
    } else if x == 0 && y == 0 {
    } else {
      XorBound(x / 2, y / 2, k - 1);
    }
  }

  /** On a number whose low `k` bits are clear, exclusive or with a
      value below 2^k fills those bits in: `(a << k) ^ i == (a << k) + i`. */
  lemma {:induction false} XorLowBits(a: nat, i: nat, k: nat)
    requires i < Pow2(k)
    ensures Xor(a * Pow2(k), i) == a * Pow2(k) + i
    decreases k
  {
    if k > 0 {
      var h := a * Pow2(k - 1);
      var x := a * Pow2(k);
      Halves(a, k);
      assert x == 2 * h && x / 2 == h;
      assert i / 2 < Pow2(k - 1) by {
        assert Pow2(k) == 2 * Pow2(k - 1);
      }
      XorLowBits(a, i / 2, k - 1);
      XorHalf(x, i);
      var z := Xor(x, i);
      assert z / 2 == h + i / 2;
      assert z % 2 == (2 * h + i) % 2;
      Rebuild(z, h, i);
    } else {
      assert i == 0;
      if a != 0 {
        XorZero(a);
      }
    }
  }

  lemma Halves(a: nat, k: nat)
    requires k > 0
    ensures a * Pow2(k) == 2 * (a * Pow2(k - 1))
  {
    assert Pow2(k) == 2 * Pow2(k - 1);
  }

  /** A number is fixed by its half and its parity. */
  lemma Rebuild(z: nat, h: nat, i: nat)
    requires z / 2 == h + i / 2 && z % 2 == (2 * h + i) % 2
    ensures z == 2 * h + i
  {
  }

  lemma {:induction false} XorZero(x: nat)
    ensures Xor(x, 0) == x
    decreases x
  {
    if x > 0 {
      XorZero(x / 2);
    }
  }

  /** `x << k`, on a value too small for the shift to overflow. */
  function Shl(x: nat, k: nat): (r: nat)
    ensures r == x * Pow2(k)
  {
    x * Pow2(k)
  }

  /** `x & y`: the low bits multiplied, then the rest shifted down. */
  function And(x: nat, y: nat): nat
    decreases x + y
  {
    if x == 0 || y == 0 then 0
    else 2 * And(x / 2, y / 2) + (if x % 2 == 1 && y % 2 == 1 then 1 else 0)
  }

  /** And-ing with a mask of `k` ones keeps the low `k` bits: the
      remainder modulo 2^k. */
  lemma {:induction false} AndMask(x: nat, k: nat)
    ensures And(x, Pow2(k) - 1) == x % Pow2(k)
    decreases k
  {
    if k > 0 {
      var p := Pow2(k - 1);
      assert Pow2(k) == 2 * p;
      AndMask(x / 2, k - 1);
      AndLowOne(x, p);
      ModDouble(x, p);
      assert And(x, 2 * p - 1) == x % (2 * p);
    }
  }

  /** `x & (1 << k)` is non-zero exactly when bit `k` of `x` is set. */
  lemma {:induction false} AndPow2(x: nat, k: nat)
    ensures And(x, Pow2(k)) != 0 <==> Bit(x, k) == 1
    decreases k
  {
    if k > 0 {
      AndPow2(x / 2, k - 1);
      var p := Pow2(k - 1);
      assert Pow2(k) == 2 * p && (2 * p) / 2 == p && (2 * p) % 2 == 0;
      assert x > 0 ==> And(x, 2 * p) == 2 * And(x / 2, p);
    }
  }

  /** Placing bit `b` at position `j` above a number below 2^j leaves the
      low bits alone and sets nothing higher. */
  lemma {:induction false} BitOfSum(low: nat, b: nat, j: nat, i: nat)
    requires low < Pow2(j) && b < 2
    ensures Bit(low + b * Pow2(j), i) == (if i < j then Bit(low, i) else if i == j then b else 0)
    decreases j
  {
    var x := low + b * Pow2(j);
    if j == 0 {
      if i > 0 {
        BitZero(b / 2, i - 1);
      }
    } else {
      var p := Pow2(j - 1);
      assert Pow2(j) == 2 * p;
      assert x / 2 == low / 2 + b * p && x % 2 == low % 2 by {
        assert x == 2 * (low / 2 + b * p) + low % 2;
      }
      if i > 0 {
        BitOfSum(low / 2, b, j - 1, i - 1);
      }
    }
  }

  lemma {:induction false} BitZero(x: nat, k: nat)
    requires x == 0
    ensures Bit(x, k) == 0
    decreases k
  {
    if k > 0 {
      BitZero(x / 2, k - 1);
    }
  }

  /** The remainder modulo 2^(k+1) adds bit `k` to the remainder modulo
      2^k. */
  lemma {:induction false} LowBits(x: nat, k: nat)
    ensures x % Pow2(k + 1) == x % Pow2(k) + Bit(x, k) * Pow2(k)
    decreases k
  {
    if k > 0 {
      LowBits(x / 2, k - 1);
      var p := Pow2(k - 1);
      assert Pow2(k) == 2 * p && Pow2(k + 1) == 2 * Pow2(k);
      ModDouble(x, Pow2(k));
      ModDouble(x, p);
    }
  }

  /** A mask with its low bit set keeps the low bit and masks the rest. */
  lemma AndLowOne(x: nat, p: nat)
    requires p >= 1
    ensures And(x, 2 * p - 1) == 2 * And(x / 2, p - 1) + x % 2
  {
    var m := 2 * p - 1;
    assert m / 2 == p - 1 && m % 2 == 1;
  }

  /** The remainder modulo 2p from the remainder of the half modulo p
      and the low bit. */
  lemma ModDouble(x: nat, p: nat)
    requires p >= 1
    ensures x % (2 * p) == 2 * ((x / 2) % p) + x % 2
  {
    var h, b := x / 2, x % 2;
    var q, r := h / p, h % p;
    assert x == 2 * h + b;
    assert h == q * p + r;
    assert x == q * (2 * p) + (2 * r + b);
    ModOf(x, 2 * p, q, 2 * r + b);
  }

  /** Division with remainder is unique. */
  lemma ModOf(x: int, d: int, q: int, r: int)
    requires d > 0 && 0 <= r < d && x == q * d + r
    ensures x % d == r
  {
    var p := x / d;
    var k := q - p;
    assert k * d == q * d - p * d;
    if k >= 1 {
      MulGrows(k, d);
    } else if k <= -1 {
      MulGrows(-k, d);
    }
  }

  lemma MulGrows(k: int, d: int)
    requires k >= 1 && d > 0
    ensures k * d >= d
  {
    assert k * d == d + (k - 1) * d;
  }

  /** `x >> k`. */
  function Shr(x: nat, k: nat): (r: nat)
    ensures r <= x
  {
    DivLe(x, Pow2(k));
    x / Pow2(k)
  }

  lemma DivLe(x: nat, p: nat)
    requires p >= 1
    ensures 0 <= x / p <= x
  {
    var q := x / p;
    assert x == q * p + x % p;
    assert q <= q * p by {
      if q > 0 {
        assert q * p == q + q * (p - 1);
      }
    }
  }
}
