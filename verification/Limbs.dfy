/** Numbers as limbs of 32 bits, least significant first (src/arith_uint256.h). */
module Limbs {
  import opened Common

  const LIMB: nat := 0x1_0000_0000

  /** The weight of limb `i`. */
  function Weight(i: nat): (r: nat)
    ensures r > 0
  {
    if i == 0 then 1 else LIMB * Weight(i - 1)
  }

  ghost predicate AreLimbs(s: seq<nat>) {
    forall i | 0 <= i < |s| :: s[i] < LIMB
  }

  ghost function Num(s: seq<nat>): nat {
    if s == [] then 0 else Num(s[..|s| - 1]) + s[|s| - 1] * Weight(|s| - 1)
  }

  lemma NumNext(s: seq<nat>, i: nat)
    requires i < |s|
    ensures Num(s[..i + 1]) == Num(s[..i]) + s[i] * Weight(i)
    ensures Weight(i + 1) == LIMB * Weight(i)
  {
    assert s[..i + 1][..i] == s[..i];
  }

  lemma NumStart(s: seq<nat>)
    ensures Num(s[..0]) == 0 && Weight(0) == 1 && s[..|s|] == s
  {
  }

  lemma {:induction false} NumBound(s: seq<nat>)
    requires AreLimbs(s)
    ensures Num(s) < Weight(|s|)
  {
    if s != [] {
      var n := |s| - 1;
      NumBound(s[..n]);
      MulMonotone(s[n] + 1, LIMB, Weight(n));
      assert (s[n] + 1) * Weight(n) == s[n] * Weight(n) + Weight(n);
    }
  }

  /** Changing one limb. */
  lemma {:induction false} NumUpdate(s: seq<nat>, j: nat, x: nat)
    requires j < |s|
    ensures Num(s[j := x]) + s[j] * Weight(j) == Num(s) + x * Weight(j)
  {
    var n := |s| - 1;
    if j == n {
      assert s[j := x][..n] == s[..n];
    } else {
      NumUpdate(s[..n], j, x);
      assert s[j := x][..n] == s[..n][j := x];
    }
  }

  lemma {:induction false} NumZeros(s: seq<nat>)
    requires forall i | 0 <= i < |s| :: s[i] == 0
    ensures Num(s) == 0
  {
    if s != [] {
      NumZeros(s[..|s| - 1]);
    }
  }

  /** A low part and a high part. */
  lemma {:induction false} NumConcat(a: seq<nat>, b: seq<nat>)
    ensures Num(a + b) == Num(a) + Num(b) * Weight(|a|)
    decreases |b|
  {
    if b == [] {
      assert a + b == a;
    } else {
      var n := |b| - 1;
      NumConcat(a, b[..n]);
      assert (a + b)[..|a| + n] == a + b[..n];
      WeightAdd(|a|, n);
      Distribute(Num(b[..n]), b[n], Weight(n), Weight(|a|));
    }
  }

  lemma Distribute(x: nat, y: nat, v: nat, w: nat)
    ensures (x + y * v) * w == x * w + y * (w * v)
  {
    assert (x + y * v) * w == x * w + y * v * w;
  }

  lemma {:induction false} WeightAdd(i: nat, j: nat)
    ensures Weight(i + j) == Weight(i) * Weight(j)
    decreases j
  {
    if j > 0 {
      WeightAdd(i, j - 1);
      Assoc(LIMB, Weight(i), Weight(j - 1));
    }
  }

  lemma Assoc(a: nat, b: nat, c: nat)
    ensures a * (b * c) == b * (a * c)
  {
  }

  /** A sum of two digits and a carry keeps its value when split into digit and carry. */
  lemma CarryOut(n: nat, w: nat)
    ensures n % LIMB * w + n / LIMB * (LIMB * w) == n * w
  {
    var q, r := n / LIMB, n % LIMB;
    assert n == q * LIMB + r;
    assert q * (LIMB * w) == q * LIMB * w;
    assert (q * LIMB + r) * w == q * LIMB * w + r * w;
  }

  /** What is left after dropping multiples of the modulus. */
  lemma Modulo(x: nat, k: nat, m: nat, y: nat)
    requires x < m && x + k * m == y
    ensures x == y % m && k == y / m
  {
    DivMod(k, x, m);
  }

  /** The higher limb decides. */
  lemma HigherDecides(a: seq<nat>, b: seq<nat>, i: nat)
    requires |a| == |b| && i < |a| && AreLimbs(a) && AreLimbs(b) && a[i + 1..] == b[i + 1..] && a[i] < b[i]
    ensures Num(a) < Num(b)
  {
    hide Num, Weight;
    assert a == a[..i + 1] + a[i + 1..] && b == b[..i + 1] + b[i + 1..];
    NumConcat(a[..i + 1], a[i + 1..]);
    NumConcat(b[..i + 1], b[i + 1..]);
    NumNext(a, i);
    NumNext(b, i);
    NumBound(a[..i]);
    MulMonotone(a[i] + 1, b[i], Weight(i));
    assert (a[i] + 1) * Weight(i) == a[i] * Weight(i) + Weight(i);
  }

  // ---------------------------------------------------------------- powers of two

  lemma {:induction false} Pow2Add(i: nat, j: nat)
    ensures Pow2(i + j) == Pow2(i) * Pow2(j)
    decreases j
  {
    if j > 0 {
      Pow2Add(i, j - 1);
      Assoc(2, Pow2(i), Pow2(j - 1));
    }
  }

  lemma Pow2Monotone(i: nat, j: nat)
    requires i <= j
    ensures Pow2(i) <= Pow2(j)
  {
    Pow2Add(i, j - i);
    MulMonotone(1, Pow2(j - i), Pow2(i));
  }

  lemma Pow2Limb()
    ensures Pow2(32) == LIMB
  {
    assert Pow2(8) == 256;
    Pow2Add(8, 8);
    Pow2Add(16, 16);
  }

  lemma {:induction false} WeightIsPow2(i: nat)
    ensures Weight(i) == Pow2(32 * i)
  {
    if i == 0 {
      assert Pow2(0) == 1;
    } else {
      WeightIsPow2(i - 1);
      Pow2Limb();
      Pow2Add(32, 32 * (i - 1));
    }
  }
}
