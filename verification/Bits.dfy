/** Machine-word arithmetic shared by the memory managers: powers of two and
    bitwise exclusive or, defined on naturals by their binary digits. */
module Bits {

  /** One past the largest 32-bit address. */
  const WORD: nat := 0x1_0000_0000

  type Byte = b: nat | b < 256

  function Pow2(k: nat): (r: nat)
    ensures r >= 1
  {
    if k == 0 then 1 else 2 * Pow2(k - 1)
  }

  function Xor(a: nat, b: nat): nat
    decreases a + b
  {
    if a == 0 && b == 0 then 0 else 2 * Xor(a / 2, b / 2) + (a % 2 + b % 2) % 2
  }

  lemma {:induction false} XorZero(a: nat)
    ensures Xor(a, 0) == a
    decreases a
  {
    if a > 0 { XorZero(a / 2); }
  }

  lemma HalfOfQuotient(a: nat, p: nat)
    requires p > 0
    ensures a / (2 * p) == (a / 2) / p
  {
    var q := a / (2 * p);
    var r := a % (2 * p);
    assert a == (2 * p) * q + r;
    assert a / 2 == p * q + r / 2 by { assert a == 2 * (p * q) + r; }
    assert 0 <= r / 2 < p;
    QuotientOf(p, q, r / 2);
  }

  lemma QuotientOf(p: nat, q: int, r: int)
    requires p > 0 && 0 <= r < p
    ensures (p * q + r) / p == q && (p * q + r) % p == r
  {
    var n := p * q + r;
    var d := n / p - q;
    assert p * d == r - n % p by { assert n == p * (n / p) + n % p; }
    assert d >= 1 ==> p * d >= p;
    assert d <= -1 ==> p * d + p <= 0;
  }

  lemma MultipleIsDivisible(n: int, p: nat, q: int)
    requires p > 0 && n == p * q
    ensures n % p == 0 && n / p == q
  {
    QuotientOf(p, q, 0);
  }

  /** Whether bit k of a is set. */
  predicate BitSet(a: nat, k: nat) {
    if k == 0 then a % 2 == 1 else BitSet(a / 2, k - 1)
  }

  lemma {:induction false} BitSetByDivision(a: nat, k: nat)
    ensures BitSet(a, k) <==> (a / Pow2(k)) % 2 == 1
    decreases k
  {
    if k > 0 {
      BitSetByDivision(a / 2, k - 1);
      HalfOfQuotient(a, Pow2(k - 1));
    }
  }

  /** Exclusive or with one bit adds that bit when it is clear and subtracts it
      when it is set. */
  lemma XorEven(a: nat, p: nat)
    requires 0 < p
    ensures Xor(a, 2 * p) == 2 * Xor(a / 2, p) + a % 2
  {
    assert 2 * p / 2 == p && 2 * p % 2 == 0;
  }

  lemma {:induction false} XorPow2(a: nat, k: nat)
    ensures BitSet(a, k) ==> a >= Pow2(k)
    ensures Xor(a, Pow2(k)) == if BitSet(a, k) then a - Pow2(k) else a + Pow2(k)
    decreases k
  {
    if k == 0 {
      XorZero(a / 2);
    } else {
      XorPow2(a / 2, k - 1);
      XorEven(a, Pow2(k - 1));
    }
  }

  lemma {:induction false} Pow2Add(j: nat, k: nat)
    ensures Pow2(j + k) == Pow2(j) * Pow2(k)
    decreases j
  {
    if j > 0 {
      Pow2Add(j - 1, k);
      assert Pow2(j) * Pow2(k) == 2 * (Pow2(j - 1) * Pow2(k));
    }
  }

  lemma {:induction false} Pow2Monotone(j: nat, k: nat)
    requires j <= k
    ensures Pow2(j) <= Pow2(k)
    decreases k - j
  {
    if j < k { Pow2Monotone(j, k - 1); }
  }

  lemma {:induction false} FlippedBit(a: nat, k: nat)
    ensures BitSet(a, k) ==> a >= Pow2(k) && !BitSet(a - Pow2(k), k)
    ensures !BitSet(a, k) ==> BitSet(a + Pow2(k), k)
    decreases k
  {
    if k > 0 {
      FlippedBit(a / 2, k - 1);
      assert Pow2(k) == 2 * Pow2(k - 1);
    }
  }

  /** Setting a clear bit below bit n stays below 2^n. */
  lemma {:induction false} SetBitStaysBelow(a: nat, k: nat, n: nat)
    requires k < n && a < Pow2(n) && !BitSet(a, k)
    ensures a + Pow2(k) < Pow2(n)
    decreases k
  {
    assert Pow2(n) == 2 * Pow2(n - 1);
    if k > 0 {
      assert Pow2(k) == 2 * Pow2(k - 1);
      SetBitStaysBelow(a / 2, k - 1, n - 1);
    }
  }

  lemma Pow2Values()
    ensures Pow2(12) == 0x1000 && Pow2(20) == 0x10_0000 && Pow2(32) == WORD
  {
    assert Pow2(4) == 16;
    Pow2Add(4, 4);
    Pow2Add(8, 4);
    Pow2Add(12, 8);
    Pow2Add(20, 12);
  }

  lemma WordIsPow2()
    ensures Pow2(4 * 8) == WORD
  {
    Pow2Add(16, 16);
    Pow2Values();
  }

  lemma {:induction false} Pow2Divides(j: nat, k: nat)
    requires j <= k
    ensures Pow2(k) == Pow2(j) * Pow2(k - j) && Pow2(k) % Pow2(j) == 0
  {
    Pow2Add(j, k - j);
    MultipleIsDivisible(Pow2(k), Pow2(j), Pow2(k - j));
  }

  lemma NextMultiple(a: nat, g: nat)
    requires g > 0 && a % g == 0
    ensures (a + g) % g == 0
  {
    var q := a / g;
    assert a + g == g * (q + 1) by { assert a == g * q; }
    MultipleIsDivisible(a + g, g, q + 1);
  }

  /** A multiple of g is a multiple of 2g, or g more than one. */
  lemma EvenOrOddMultiple(a: nat, g: nat)
    requires g > 0 && a % g == 0
    ensures (a / g) % 2 == 0 ==> a % (2 * g) == 0
    ensures (a / g) % 2 == 1 ==> a >= g && a % (2 * g) == g && (a - g) % (2 * g) == 0
  {
    var q := a / g;
    var h := q / 2;
    assert a == g * q;
    if q % 2 == 0 {
      assert a == (2 * g) * h by { assert q == 2 * h; }
      MultipleIsDivisible(a, 2 * g, h);
    } else {
      assert a == (2 * g) * h + g by { assert q == 2 * h + 1; }
      assert (2 * g) * h >= 0;
      QuotientOf(2 * g, h, g);
      MultipleIsDivisible(a - g, 2 * g, h);
    }
  }

  lemma CompareMultiples(u: int, v: int, g: nat)
    requires g > 0 && u < v
    ensures g * u + g <= g * v
  {
    var d: nat := v - u - 1;
    assert v == u + 1 + d;
    assert g * v == g * u + g + g * d;
  }

  /** On the grid of multiples of g, a run that meets a cell contains it. */
  lemma GridContains(c: nat, len: nat, t: nat, g: nat, x: int)
    requires g > 0 && c % g == 0 && len % g == 0 && t % g == 0
    requires t <= x < t + g && c <= x < c + len
    ensures c <= t && t + g <= c + len
  {
    var u, v, w := c / g, len / g, t / g;
    assert c == g * u && len == g * v && t == g * w;
    assert g * (u + v) == c + len;
    if w < u {
      CompareMultiples(w, u, g);
      assert false;
    }
    if w < u + v {
      CompareMultiples(w, u + v, g);
    } else if w > u + v {
      CompareMultiples(u + v, w, g);
      assert false;
    }
  }
}
