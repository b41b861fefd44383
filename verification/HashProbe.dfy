/**
 The probe sequence of the open-addressing hash table (src/lib/hash/hash.c:55-82) and the reason
 its unbounded search loop ends: after at most 13 shifts the perturbation is 0, and from then on
 the slot number follows x -> 5x + 1 modulo a power of two, which is one single cycle.
 */
module HashProbe {
  import opened CInt

  /** The perturbation after n probes. */
  function Perturb(hash: nat, n: nat): (p: nat) {
    if n == 0 then hash else Perturb(hash, n - 1) / 32
  }

  /** The 64-bit probe index after n probes, before masking. */
  function Index(hash: nat, size: nat, n: nat): (i: nat)
    requires size > 0
  {
    if n == 0 then hash % size
    else (5 * Index(hash, size, n - 1) + Perturb(hash, n - 1) + 1) % WORD
  }

  /** The slot inspected by probe number n. */
  function Slot(hash: nat, size: nat, n: nat): (s: nat)
    requires size > 0
    ensures s < size
  {
    Index(hash, size, n) % size
  }

  /** n rounds of x -> 5x + 1 over the integers. */
  function Turn(x: int, n: nat): int {
    if n == 0 then x else 5 * Turn(x, n - 1) + 1
  }

  function Pow5(n: nat): int {
    if n == 0 then 1 else 5 * Pow5(n - 1)
  }

  lemma {:induction false} Pow5Mod4(n: nat) returns (q: int)
    ensures Pow5(n) == 4 * q + 1
  {
    if n == 0 {
      q := 0;
    } else {
      q := Pow5Mod4(n - 1);
      q := 5 * q + 1;
    }
  }

  /** Turning is affine with slope 5^n. */
  lemma {:induction false} TurnShift(x: int, d: int, n: nat)
    ensures Turn(x + d, n) == Turn(x, n) + Pow5(n) * d
  {
    if n != 0 {
      TurnShift(x, d, n - 1);
      assert 5 * (Pow5(n - 1) * d) == Pow5(n) * d;
    }
  }

  lemma {:induction false} TurnAdd(x: int, m: nat, n: nat)
    ensures Turn(x, m + n) == Turn(Turn(x, m), n)
  {
    if n != 0 {
      TurnAdd(x, m, n - 1);
      assert m + n - 1 == m + (n - 1);
    }
  }

  /** 2^k rounds move every x by an odd multiple of 2^k. */
  lemma {:induction false} FullTurn(x: int, k: nat) returns (q: int)
    ensures q % 2 == 1
    ensures Turn(x, Pow2(k)) == x + Pow2(k) * q
  {
    if k == 0 {
      OneTurn(x);
      Odd(2 * x);
      q := 2 * (2 * x) + 1;
    } else {
      var h := Pow2(k - 1);
      var q0 := FullTurn(x, k - 1);
      q := DoubleTurn(x, h, q0);
      assert Pow2(k) == 2 * h;
    }
  }

  lemma OneTurn(x: int)
    ensures Turn(x, 1) == x + (4 * x + 1)
  {
    assert Turn(x, 0) == x;
  }

  lemma Odd(m: int)
    ensures (2 * m + 1) % 2 == 1
  {
  }

  lemma DoubleTurn(x: int, h: nat, q0: int) returns (q: int)
    requires q0 % 2 == 1 && Turn(x, h) == x + h * q0
    ensures q % 2 == 1 && Turn(x, 2 * h) == x + (2 * h) * q
  {
    var c := Pow5Mod4(h);
    TurnAdd(x, h, h);
    TurnShift(x, h * q0, h);
    q := TwoHalfTurns(x, h, q0, c);
  }

  /** A slope that is 1 modulo 4 makes two half turns add up to an odd multiple of 2h. */
  lemma TwoHalfTurns(x: int, h: int, q0: int, c: int) returns (q: int)
    requires q0 % 2 == 1
    ensures q % 2 == 1
    ensures x + h * q0 + (4 * c + 1) * (h * q0) == x + (2 * h) * q
  {
    OddTimesOdd(q0, 2 * c + 1);
    q := q0 * (2 * c + 1);
  }

  lemma OddTimesOdd(a: int, b: int)
    requires a % 2 == 1 && b % 2 == 1
    ensures (a * b) % 2 == 1
  {
    var i, j := a / 2, b / 2;
    assert a * b == 2 * (2 * i * j + i + j) + 1;
  }

  /** x -> 5x + 1 modulo 2^k is one full cycle: every residue is met within 2^k rounds. */
  lemma {:induction false} TurnHitsAll(x: int, k: nat, t: int) returns (n: nat)
    requires 0 <= t < Pow2(k)
    ensures n < Pow2(k)
    ensures Turn(x, n) % Pow2(k) == t
  {
    if k == 0 {
      n := 0;
    } else {
      var h := Pow2(k - 1);
      var m := TurnHitsAll(x, k - 1, t % h);
      var q := FullTurn(Turn(x, m), k - 1);
      n := OneOfTwoTurns(x, m, h, q, t);
    }
  }

  /** A point that agrees with t modulo h reaches it modulo 2h now, or half a cycle later. */
  lemma OneOfTwoTurns(x: int, m: nat, h: nat, q: int, t: int) returns (n: nat)
    requires 0 <= t < 2 * h && m < h && q % 2 == 1
    requires Turn(x, m) % h == t % h
    requires Turn(Turn(x, m), h) == Turn(x, m) + h * q
    ensures n < 2 * h && Turn(x, n) % (2 * h) == t
  {
    var y := Turn(x, m);
    TurnAdd(x, m, h);
    var now := ReachedNow(y, t, h, q);
    n := if now then m else m + h;
  }

  /** Either y or y + h*q has residue t modulo 2h. */
  lemma ReachedNow(y: int, t: int, h: int, q: int) returns (now: bool)
    requires 0 <= t < 2 * h && q % 2 == 1
    requires y % h == t % h
    ensures if now then y % (2 * h) == t else (y + h * q) % (2 * h) == t
  {
    var d := ModWitness(y, t, h);
    now := d % 2 == 0;
    EvenMultiple(y, t, h, d, if now then 0 else q);
  }

  lemma EvenMultiple(y: int, t: int, h: int, d: int, q: int)
    requires 0 <= t < 2 * h && y == t + h * d && (d + q) % 2 == 0
    ensures (y + h * q) % (2 * h) == t
  {
    var c := (d + q) / 2;
    assert d == 2 * c - q;
    assert y + h * q == (2 * h) * c + t;
    ModUnique(y + h * q, 2 * h, c, t);
  }

  /** 13 shifts by five bits clear any 64-bit perturbation. */
  lemma PerturbVanishes(hash: nat, n: nat)
    requires hash < WORD && n >= 13
    ensures Perturb(hash, n) == 0
  {
    if n == 13 {
      PerturbShrinks(hash, 13);
      assert Pow2(65) == 2 * Pow2(64);
      Pow2Word();
    } else {
      PerturbVanishes(hash, n - 1);
    }
  }

  lemma {:induction false} PerturbShrinks(hash: nat, n: nat)
    ensures Perturb(hash, n) * Pow2(5 * n) <= hash
  {
    if n != 0 {
      PerturbShrinks(hash, n - 1);
      var p := Perturb(hash, n - 1);
      var w := Pow2(5 * (n - 1));
      Pow2Sum(5, 5 * (n - 1));
      assert Pow2(5) == 32;
      assert 5 + 5 * (n - 1) == 5 * n;
      assert (p / 32) * (32 * w) == (32 * (p / 32)) * w;
      MulMonotone(32 * (p / 32), p, w);
    }
  }

  lemma MulMonotone(a: int, b: int, c: nat)
    requires a <= b
    ensures a * c <= b * c
  {
    assert b * c == a * c + (b - a) * c;
    assert (b - a) * c >= 0;
  }

  /** Once the perturbation is gone, the slot follows the cycle. */
  lemma {:induction false} TailFollowsCycle(hash: nat, k: nat, n: nat)
    requires hash < WORD && k <= 64
    ensures Slot(hash, Pow2(k), 13 + n) == Turn(Index(hash, Pow2(k), 13), n) % Pow2(k)
  {
    if n != 0 {
      var size := Pow2(k);
      var i := Index(hash, size, 12 + n);
      TailFollowsCycle(hash, k, n - 1);
      PerturbVanishes(hash, 12 + n);
      WrapThenMask(5 * i + 1, k);
      StepCongruent(i, Turn(Index(hash, size, 13), n - 1), size);
    }
  }

  lemma StepCongruent(i: int, y: int, size: int)
    requires size > 0 && i % size == y % size
    ensures (5 * i + 1) % size == (5 * y + 1) % size
  {
    var q := ModWitness(i, y, size);
    assert 5 * i + 1 == 5 * y + 1 + size * (5 * q);
    ModShift(5 * y + 1, size, 5 * q);
  }

  /** Wrapping at 64 bits before masking loses nothing: 2^k divides 2^64. */
  lemma WrapThenMask(x: nat, k: nat)
    requires k <= 64
    ensures (x % WORD) % Pow2(k) == x % Pow2(k)
  {
    Pow2Word();
    Pow2Sum(k, 64 - k);
    ModOfMod(x, Pow2(k), Pow2(64 - k));
  }

  lemma ModOfMod(x: nat, m: int, w: int)
    requires m > 0 && w > 0 && m * w > 0
    ensures (x % (m * w)) % m == x % m
  {
    var q := x / (m * w);
    assert x == x % (m * w) + m * (w * q) by {
      assert (m * w) * q == m * (w * q);
    }
    ModShift(x % (m * w), m, w * q);
  }

  /** Every slot of a power-of-two table is inspected within 13 + size probes. */
  lemma ProbeReachesEverySlot(hash: nat, k: nat, t: nat) returns (n: nat)
    requires hash < WORD && k <= 64 && t < Pow2(k)
    ensures n < 13 + Pow2(k)
    ensures Slot(hash, Pow2(k), n) == t
  {
    var m := TurnHitsAll(Index(hash, Pow2(k), 13), k, t);
    TailFollowsCycle(hash, k, m);
    n := 13 + m;
  }

  /** The masked 64-bit index is the probe sequence: its start ... */
  lemma PathStart(hash: nat, k: nat)
    ensures BitAnd(hash, Pow2(k) - 1) == Index(hash, Pow2(k), 0) == Slot(hash, Pow2(k), 0)
  {
    MaskIsMod(hash, k);
    ModUnique(hash % Pow2(k), Pow2(k), 0, hash % Pow2(k));
  }

  /** ... and each of its steps. */
  lemma PathStep(hash: nat, k: nat, n: nat)
    ensures var i := (5 * Index(hash, Pow2(k), n) + Perturb(hash, n) + 1) % WORD;
      && i == Index(hash, Pow2(k), n + 1)
      && BitAnd(i, Pow2(k) - 1) == Slot(hash, Pow2(k), n + 1)
    ensures Perturb(hash, n) / 32 == Perturb(hash, n + 1)
  {
    MaskIsMod(Index(hash, Pow2(k), n + 1), k);
  }
}
