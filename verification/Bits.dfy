/** Bitwise operators on unbounded integers, with the meaning Python gives them: a negative number has
    infinitely many leading ones. (C gives the same on unsigned operands, before any truncation to the
    width of the result.) The lemmas below turn masks, shifts and unions into `%`, `/` and `+`. */
module Bits {

  type bit = n: nat | n < 2

  function Pow2(k: nat): (p: nat)
    ensures p >= 1
  {
    if k == 0 then 1 else 2 * Pow2(k - 1)
  }

  /** A mask is never negative. */
  function And(a: int, mask: nat): (r: nat)
    ensures r <= mask
    decreases mask
  {
    if mask == 0 then 0
    else (if a % 2 == 1 && mask % 2 == 1 then 1 else 0) + 2 * And(a / 2, mask / 2)
  }

  function Or(a: int, b: int): int
    decreases if a < 0 then -a else a
  {
    if a == 0 then b
    else if a == -1 then -1
    else (if a % 2 == 1 || b % 2 == 1 then 1 else 0) + 2 * Or(a / 2, b / 2)
  }

  function Xor(a: int, b: int): int
    decreases if a < 0 then -a else a
  {
    if a == 0 then b
    else if a == -1 then Flip(b)
    else (if a % 2 != b % 2 then 1 else 0) + 2 * Xor(a / 2, b / 2)
  }

  /** ~a */
  function Flip(a: int): int {
    -a - 1
  }

  function Shl(a: int, k: nat): int
    decreases k
  {
    if k == 0 then a else 2 * Shl(a, k - 1)
  }

  function Shr(a: int, k: nat): int
    decreases k
  {
    if k == 0 then a else Shr(a / 2, k - 1)
  }

  lemma {:induction false} ShlIsProduct(a: int, k: nat)
    ensures Shl(a, k) == a * Pow2(k)
    decreases k
  {
    if k > 0 {
      ShlIsProduct(a, k - 1);
      DoubleProduct(a, Pow2(k - 1));
    }
  }

  lemma {:induction false} ShrIsQuotient(a: int, k: nat)
    ensures Shr(a, k) == a / Pow2(k)
    decreases k
  {
    if k > 0 {
      ShrIsQuotient(a / 2, k - 1);
      HalveDivMod(a, Pow2(k - 1));
    }
  }

  lemma {:induction false} ShlShr(a: int, k: nat)
    ensures Shr(Shl(a, k), k) == a
    decreases k
  {
    if k > 0 {
      ShlShr(a, k - 1);
    }
  }

  lemma Pow2Values()
    ensures Pow2(1) == 2 && Pow2(2) == 4 && Pow2(3) == 8 && Pow2(4) == 16 && Pow2(6) == 64 && Pow2(7) == 128
    ensures Pow2(8) == 256 && Pow2(10) == 1024 && Pow2(11) == 2048 && Pow2(12) == 4096 && Pow2(13) == 8192
    ensures Pow2(22) == 4194304 && Pow2(23) == 8388608 && Pow2(24) == 16777216 && Pow2(25) == 33554432
  {
    assert Pow2(11) == 2048;
    assert Pow2(12) == 4096;
    assert Pow2(13) == 8192;
    assert Pow2(22) == 4194304;
  }

  lemma DoubleProduct(a: int, p: nat)
    ensures 2 * (a * p) == a * (2 * p)
  {
  }

  lemma MulDistributes(a: int, b: int, c: int)
    ensures (a - b) * c == a * c - b * c
    ensures c * (a - b) == c * a - c * b
  {
  }

  lemma DivModUnique(x: int, d: int, q: int, r: int)
    requires d > 0 && 0 <= r < d && x == d * q + r
    ensures x / d == q && x % d == r
  {
    var q', r' := x / d, x % d;
    var t := q - q';
    assert x == d * q' + r';
    MulDistributes(q, q', d);
    assert d * t == r' - r;
    if t >= 1 {
      MulMonotone(d, t);
    }
  }

  lemma MulMonotone(d: nat, t: nat)
    requires t >= 1
    ensures d * t >= d
  {
    MulDistributes(t, 1, d);
  }

  lemma HalveDivMod(x: int, p: nat)
    requires p > 0
    ensures x % (2 * p) == x % 2 + 2 * ((x / 2) % p)
    ensures x / (2 * p) == (x / 2) / p
  {
    var h := x / 2;
    var q, r := h / p, h % p;
    assert h == p * q + r;
    assert x == (2 * p) * q + (x % 2 + 2 * r);
    DivModUnique(x, 2 * p, q, x % 2 + 2 * r);
  }

  lemma AndOdd(x: int, n: nat)
    ensures And(x, 2 * n + 1) == x % 2 + 2 * And(x / 2, n)
  {
    var m := 2 * n + 1;
    assert m / 2 == n && m % 2 == 1;
    assert And(x, m) == x % 2 + 2 * And(x / 2, m / 2);
  }

  lemma AndEven(x: int, n: nat)
    ensures And(x, 2 * n) == 2 * And(x / 2, n)
  {
    var m := 2 * n;
    assert m / 2 == n && m % 2 == 0;
    if n > 0 {
      assert And(x, m) == 2 * And(x / 2, m / 2);
    }
  }

  /** Masking with k ones keeps the low k bits. */
  lemma {:induction false} AndMask(x: int, k: nat)
    ensures And(x, Pow2(k) - 1) == x % Pow2(k)
    decreases k
  {
    hide And;
    if k == 0 {
      AndNothing(x);
    } else {
      var p := Pow2(k - 1);
      AndMask(x / 2, k - 1);
      assert Pow2(k) == 2 * p;
      hide Pow2;
      AndMaskStep(x, p);
    }
  }

  lemma AndNothing(x: int)
    ensures And(x, 0) == 0 == x % 1
  {
  }

  lemma AndMaskStep(x: int, p: nat)
    requires p > 0 && And(x / 2, p - 1) == x / 2 % p
    ensures And(x, 2 * p - 1) == x % (2 * p)
  {
    hide And;
    AndOdd(x, p - 1);
    assert 2 * p - 1 == 2 * (p - 1) + 1;
    HalveDivMod(x, p);
  }

  /** A mask shifted left by k tests the bits above position k. */
  lemma {:induction false} AndHigh(x: int, m: nat, k: nat)
    ensures Shl(m, k) >= 0 && And(x, Shl(m, k)) == Shl(And(Shr(x, k), m), k)
    decreases k
  {
    if k > 0 {
      hide And;
      AndHigh(x / 2, m, k - 1);
      AndEven(x, Shl(m, k - 1));
    }
  }

  lemma OrHalves(a: int, b: int)
    ensures Or(a, b) % 2 == if a % 2 == 1 || b % 2 == 1 then 1 else 0
    ensures Or(a, b) / 2 == Or(a / 2, b / 2)
  {
  }

  /** Or works on the bits above k and below k separately. */
  lemma {:induction false} OrAbove(a: int, b: int, l: nat, k: nat)
    requires l < Pow2(k)
    ensures Or(Shl(a, k), Shl(b, k) + l) == Shl(Or(a, b), k) + l
    decreases k
  {
    hide Or;
    if k > 0 {
      OrAbove(a, b, l / 2, k - 1);
      var x, y := Shl(a, k), Shl(b, k) + l;
      assert x / 2 == Shl(a, k - 1) && y / 2 == Shl(b, k - 1) + l / 2 && x % 2 == 0 && y % 2 == l % 2;
      OrHalves(x, y);
    }
  }

  lemma {:induction false} OrBelow(a: int, b: int, k: nat)
    ensures Or(a % Pow2(k), b % Pow2(k)) == Or(a, b) % Pow2(k)
    decreases k
  {
    hide Or;
    if k == 0 {
      assert Or(0, 0) == 0 by { OrZero(); }
    } else {
      var p := Pow2(k - 1);
      OrBelow(a / 2, b / 2, k - 1);
      LowBits(a, p);
      LowBits(b, p);
      LowBits(Or(a, b), p);
      OrHalves(a, b);
      OrHalves(a % (2 * p), b % (2 * p));
    }
  }

  lemma OrZero()
    ensures Or(0, 0) == 0
  {
  }

  lemma LowBits(a: int, p: nat)
    requires p > 0
    ensures a % (2 * p) % 2 == a % 2 && a % (2 * p) / 2 == a / 2 % p
  {
    HalveDivMod(a, p);
    DivModUnique(a % (2 * p), 2, a / 2 % p, a % 2);
  }

  lemma {:induction false} OrCommutes(a: int, b: int)
    ensures Or(a, b) == Or(b, a)
    decreases (if a < 0 then -a else a) + if b < 0 then -b else b
  {
    if !(a in {0, -1} && b in {0, -1}) {
      hide Or;
      OrCommutes(a / 2, b / 2);
      OrHalves(a, b);
      OrHalves(b, a);
    }
  }

  /** Or-ing a value below bit k into a value with no bits below k adds the two. */
  lemma OrLow(h: int, l: nat, k: nat)
    requires l < Pow2(k)
    ensures Or(Shl(h, k), l) == Shl(h, k) + l
  {
    hide Pow2;
    OrAbove(h, 0, l, k);
    ShlIsProduct(0, k);
    OrCommutes(h, 0);
  }

  /** Exclusive or is the bits in one of the two and not in both. */
  lemma {:induction false} XorIsOrLessAnd(a: int, b: nat)
    ensures Or(a, b) == Xor(a, b) + And(a, b)
    decreases if a < 0 then -a else a
  {
    if a == 0 {
      AndOfZero(b);
    } else if a == -1 {
      FlipAnd(0, b);
      AndOfZero(b);
    } else {
      XorIsOrLessAnd(a / 2, b / 2);
    }
  }

  lemma {:induction false} AndOfZero(mask: nat)
    ensures And(0, mask) == 0
  {
    if mask > 0 {
      AndOfZero(mask / 2);
    }
  }

  /** Under any mask a number and its complement share the ones out. */
  lemma {:induction false} FlipAnd(a: int, mask: nat)
    ensures And(Flip(a), mask) + And(a, mask) == mask
    decreases mask
  {
    if mask > 0 {
      assert Flip(a) / 2 == Flip(a / 2) && Flip(a) % 2 == 1 - a % 2;
      FlipAnd(a / 2, mask / 2);
    }
  }
}
