/**
 The C integer operations the kernel relies on, written out over unbounded integers:
 64-bit wrap-around, masking, and division that truncates toward zero.
 */
module CInt {

  const WORD: int := 0x1_0000_0000_0000_0000

  function Pow2(k: nat): (p: nat)
    ensures p >= 1
  {
    if k == 0 then 1 else 2 * Pow2(k - 1)
  }

  /** Bitwise `x & m`, one bit at a time. */
  function BitAnd(x: nat, m: nat): nat
    decreases m
  {
    if m == 0 then 0 else (if x % 2 == 1 && m % 2 == 1 then 1 else 0) + 2 * BitAnd(x / 2, m / 2)
  }

  /** C division: the quotient is truncated toward zero. */
  function TDiv(n: int, d: int): int
    requires d != 0
  {
    if n >= 0 then
      if d > 0 then n / d else -(n / -d)
    else
      if d > 0 then -(-n / d) else -n / -d
  }

  function Abs(x: int): nat {
    if x < 0 then -x else x
  }

  lemma MulAway(m: int, d: int)
    requires m > 0
    ensures d >= 1 ==> m * d >= m
    ensures d <= -1 ==> m * d <= -m
  {
    if d >= 1 {
      assert m * d == m + m * (d - 1);
    } else if d <= -1 {
      assert m * d == -m + m * (d + 1);
    }
  }

  lemma ModUnique(a: int, m: int, q: int, r: int)
    requires m > 0
    requires a == m * q + r
    requires 0 <= r < m
    ensures a % m == r
    ensures a / m == q
  {
    var d := a / m - q;
    assert m * d == r - a % m by {
      assert a == m * (a / m) + a % m;
      assert m * d == m * (a / m) - m * q;
    }
    MulAway(m, d);
  }

  /** Adding a multiple of the modulus does not change the residue. */
  lemma ModShift(a: int, m: int, q: int)
    requires m > 0
    ensures (a + m * q) % m == a % m
  {
    var r := a % m;
    assert a + m * q == m * (a / m + q) + r by {
      assert a == m * (a / m) + r;
      assert m * (a / m + q) == m * (a / m) + m * q;
    }
    ModUnique(a + m * q, m, a / m + q, r);
  }

  /** Equal residues differ by a multiple of the modulus. */
  lemma ModWitness(a: int, b: int, m: int) returns (q: int)
    requires m > 0
    requires a % m == b % m
    ensures a == b + m * q
  {
    q := a / m - b / m;
    assert m * q == m * (a / m) - m * (b / m);
  }

  lemma Pow2Sum(i: nat, j: nat)
    ensures Pow2(i + j) == Pow2(i) * Pow2(j)
  {
    if i != 0 {
      Pow2Sum(i - 1, j);
    }
  }

  lemma Pow2Monotone(i: nat, j: nat)
    requires i <= j
    ensures Pow2(i) <= Pow2(j)
  {
    if i < j {
      Pow2Monotone(i, j - 1);
    }
  }

  lemma Pow2Word()
    ensures Pow2(64) == WORD
  {
    assert Pow2(8) == 256;
    Pow2Sum(8, 8);
    assert Pow2(16) == 0x1_0000;
    Pow2Sum(16, 16);
    assert Pow2(32) == 0x1_0000_0000;
    Pow2Sum(32, 32);
  }

  /** `x & (2^k - 1)` is the remainder of x by 2^k: what the table's index mask computes. */
  lemma {:induction false} MaskIsMod(x: nat, k: nat)
    ensures BitAnd(x, Pow2(k) - 1) == x % Pow2(k)
  {
    if k != 0 {
      MaskIsMod(x / 2, k - 1);
      MaskStep(x, Pow2(k - 1));
    }
  }

  lemma MaskStep(x: nat, p: nat)
    requires p >= 1 && BitAnd(x / 2, p - 1) == (x / 2) % p
    ensures BitAnd(x, 2 * p - 1) == x % (2 * p)
  {
    HalfMod(x, p);
    LowBit(x, p);
  }

  lemma LowBit(x: nat, p: nat)
    requires p >= 1
    ensures BitAnd(x, 2 * p - 1) == x % 2 + 2 * BitAnd(x / 2, p - 1)
  {
    var m := 2 * p - 1;
    assert m % 2 == 1 && m / 2 == p - 1;
  }

  lemma HalfMod(x: nat, p: nat)
    requires p >= 1
    ensures x % (2 * p) == x % 2 + 2 * ((x / 2) % p)
  {
    var q, r := (x / 2) / p, (x / 2) % p;
    assert x / 2 == p * q + r;
    assert x == 2 * (p * q) + 2 * r + x % 2;
    assert (2 * p) * q == 2 * (p * q);
    ModUnique(x, 2 * p, q, 2 * r + x % 2);
  }
}
