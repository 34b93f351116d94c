/** Shifting limbs: what each step of the shift loops of src/arith_uint256.cpp does to the number. */
module Shifts {
  import opened Common
  import opened Limbs

  /** The bits of a limb that a shift to the left by `s` moves out, and those that stay in. */
  function HighPart(a: nat, s: nat): nat
    requires s < 32
  {
    Div(a, Pow2(32 - s))
  }

  function LowPart(a: nat, s: nat): nat
    requires s < 32
  {
    Mod(a * Pow2(s), LIMB)
  }

  /** The bits of a limb that a shift to the right by `s` keeps, and those that move to the top of the limb
      below. */
  function Kept(a: nat, s: nat): nat
    requires s < 32
  {
    Div(a, Pow2(s))
  }

  function Moved(a: nat, s: nat): nat
    requires s < 32
  {
    Mod(a * Pow2(32 - s), LIMB)
  }

  /** Bitwise or of numbers without a common one bit: `x` is below `2^k` and `y` is a multiple of it. */
  function Or(x: nat, y: nat, ghost k: nat): nat
    requires x < Pow2(k) && Mod(y, Pow2(k)) == 0
  {
    x + y
  }

  lemma OrParts(a: nat, s: nat)
    requires a < LIMB && s < 32
    ensures Mod(LowPart(a, s), Pow2(s)) == 0 && Mod(Moved(a, s), Pow2(32 - s)) == 0
    ensures Pow2(0) == 1 && Mod(HighPart(a, s), 1) == 0 && Mod(Kept(a, s), 1) == 0
  {
    hide Pow2, Div;
    DTimesH(s);
    SplitNumber(a, Pow2(s), Pow2(32 - s));
    SplitNumber(a, Pow2(32 - s), Pow2(s));
    DivMod(Mod(a, Pow2(32 - s)), 0, Pow2(s));
    DivMod(Mod(a, Pow2(s)), 0, Pow2(32 - s));
    NoShift();
  }

  /** Multiplying by one of two factors of the limb size moves the remainder by the other to the top. */
  lemma SplitNumber(a: nat, d: nat, h: nat)
    requires 0 < d && 0 < h && d * h == LIMB && a < LIMB
    ensures var q, r := Div(a, h), Mod(a, h);
            && q < d && r * d + d <= LIMB
            && a * d == q * LIMB + r * d && Mod(a * d, LIMB) == r * d
  {
    hide Div;
    var q, r := Div(a, h), Mod(a, h);
    DivFacts(a, h);
    Parts(q, h, r, d);
    if q >= d {
      MulMonotone(d, q, h);
      assert false;
    }
    MulMonotone(r + 1, h, d);
    Both(r, 1, d);
    DivMod(q, r * d, LIMB);
  }

  lemma Parts(q: nat, h: nat, r: nat, d: nat)
    ensures (q * h + r) * d == q * (d * h) + r * d && h * d == d * h
  {
    assert q * h * d == q * (d * h);
  }

  lemma Both(x: nat, y: nat, w: nat)
    ensures (x + y) * w == x * w + y * w
  {
  }

  /** A limb times `2^s` splits into two parts that do not overlap. */
  lemma SplitLeft(a: nat, s: nat)
    requires a < LIMB && s < 32
    ensures var hi, lo := HighPart(a, s), LowPart(a, s);
            a * Pow2(s) == hi * LIMB + lo && hi < Pow2(s) && lo + Pow2(s) <= LIMB
  {
    hide Pow2, Div, Mod;
    DTimesH(s);
    SplitNumber(a, Pow2(s), Pow2(32 - s));
  }

  lemma DTimesH(s: nat)
    requires s < 32
    ensures Pow2(s) * Pow2(32 - s) == LIMB && Pow2(32 - s) * Pow2(s) == LIMB
  {
    hide Pow2;
    Pow2Add(s, 32 - s);
    Pow2Add(32 - s, s);
    Pow2Limb();
  }

  /** A limb divided by `2^s`: quotient and remainder, the remainder moved to the top of the limb below. */
  lemma SplitRight(a: nat, s: nat)
    requires a < LIMB && s < 32
    ensures var d, h := Pow2(s), Pow2(32 - s);
            var r := Mod(a, d);
            a == Kept(a, s) * d + r && Kept(a, s) < h && Moved(a, s) == r * h && r * h + h <= LIMB
  {
    hide Pow2, Div, Mod;
    DTimesH(s);
    DivFacts(a, Pow2(s));
    SplitNumber(a, Pow2(32 - s), Pow2(s));
  }

  // ---------------------------------------------------------------- to the left

  /** After `i` limbs: the number so far, shifted, up to multiples of the modulus; the limb that is written
      next holds only bits moved up from the one below. */
  ghost predicate LeftOk(a: seq<nat>, out: seq<nat>, k: nat, s: nat, i: nat, dropped: nat) {
    && |a| == |out| && i <= |a| && s < 32 && AreLimbs(out)
    && (forall p | i + k < p < |out| :: out[p] == 0) && (i + k < |out| ==> out[i + k] < Pow2(s))
    && Num(out) + dropped * Weight(|a|) == Num(a[..i]) * Pow2(s) * Weight(k)
  }

  lemma LeftStart(a: seq<nat>, out: seq<nat>, k: nat, s: nat)
    requires |a| == |out| && s < 32 && forall p | 0 <= p < |out| :: out[p] == 0
    ensures LeftOk(a, out, k, s, 0, 0)
  {
    NumZeros(out);
    NumStart(a);
  }

  /** The two writes of step `i`. */
  function LeftStep(a: seq<nat>, out: seq<nat>, k: nat, s: nat, i: nat): seq<nat>
    requires |a| == |out| && i < |a| && s < 32
  {
    var hi, lo := HighPart(a[i], s), LowPart(a[i], s);
    var mid := if i + k + 1 < |a| && s != 0 then out[i + k + 1 := out[i + k + 1] + hi] else out;
    if i + k < |a| then mid[i + k := mid[i + k] + lo] else mid
  }

  /** What one limb adds. */
  lemma LeftAmount(a: nat, low: nat, hi: nat, lo: nat, d: nat, wi: nat, wk: nat)
    requires a * d == hi * LIMB + lo
    ensures (low + a * wi) * d * wk == low * d * wk + hi * (LIMB * (wi * wk)) + lo * (wi * wk)
  {
    var w := wi * wk;
    assert (low + a * wi) * d == low * d + a * wi * d;
    assert a * wi * d * wk == a * d * w;
    assert (hi * LIMB + lo) * w == hi * LIMB * w + lo * w;
    assert hi * LIMB * w == hi * (LIMB * w);
  }

  lemma LeftAmountAt(a: seq<nat>, k: nat, s: nat, i: nat)
    requires i < |a| && s < 32 && AreLimbs(a)
    ensures Num(a[..i + 1]) * Pow2(s) * Weight(k) ==
            Num(a[..i]) * Pow2(s) * Weight(k) + HighPart(a[i], s) * (LIMB * Weight(i + k)) + LowPart(a[i], s) * Weight(i + k)
  {
    hide Num, Weight, Pow2, HighPart, LowPart;
    SplitLeft(a[i], s);
    NumNext(a, i);
    WeightAdd(i, k);
    LeftAmount(a[i], Num(a[..i]), HighPart(a[i], s), LowPart(a[i], s), Pow2(s), Weight(i), Weight(k));
  }

  lemma LeftNext(a: seq<nat>, out: seq<nat>, k: nat, s: nat, i: nat, dropped: nat) returns (more: nat)
    requires LeftOk(a, out, k, s, i, dropped) && i < |a| && AreLimbs(a)
    ensures LeftOk(a, LeftStep(a, out, k, s, i), k, s, i + 1, dropped + more)
  {
    hide Num, Weight, Pow2, HighPart, LowPart, LeftStep;
    LeftAmountAt(a, k, s, i);
    if i + k + 1 < |a| {
      LeftInside(a, out, k, s, i);
      more := 0;
    } else {
      more := LeftOverflow(a, out, k, s, i);
    }
    Both(dropped, more, Weight(|a|));
  }

  /** At the top and beyond, what has no place is a multiple of the modulus. */
  lemma LeftOverflow(a: seq<nat>, out: seq<nat>, k: nat, s: nat, i: nat) returns (more: nat)
    requires |a| == |out| && s < 32 && i < |a| <= i + k + 1 && AreLimbs(a) && AreLimbs(out)
    requires i + k < |out| ==> out[i + k] < Pow2(s)
    ensures var hi, lo := HighPart(a[i], s), LowPart(a[i], s);
            var r := LeftStep(a, out, k, s, i);
            && Num(r) + more * Weight(|a|) == Num(out) + hi * (LIMB * Weight(i + k)) + lo * Weight(i + k)
            && |r| == |a| && AreLimbs(r)
  {
    hide Num, Weight, Pow2, HighPart, LowPart;
    var hi, lo := HighPart(a[i], s), LowPart(a[i], s);
    SplitLeft(a[i], s);
    NextWeight(i + k);
    if i + k < |a| {
      NumUpdate(out, i + k, out[i + k] + lo);
      Both(out[i + k], lo, Weight(i + k));
      more := hi;
    } else {
      var v := Weight(i + k - |a|);
      WeightAdd(i + k - |a|, |a|);
      more := (hi * LIMB + lo) * v;
      AllDropped(hi, lo, v, Weight(|a|));
    }
  }

  lemma NextWeight(i: nat)
    ensures Weight(i + 1) == LIMB * Weight(i)
  {
  }

  lemma AllDropped(hi: nat, lo: nat, v: nat, m: nat)
    ensures (hi * LIMB + lo) * v * m == hi * (LIMB * (v * m)) + lo * (v * m)
  {
    var w := v * m;
    assert (hi * LIMB + lo) * v * m == (hi * LIMB + lo) * w;
    assert (hi * LIMB + lo) * w == hi * LIMB * w + lo * w;
    assert hi * LIMB * w == hi * (LIMB * w);
  }

  /** Both parts of the limb have a place. */
  lemma LeftInside(a: seq<nat>, out: seq<nat>, k: nat, s: nat, i: nat)
    requires |a| == |out| && s < 32 && i + k + 1 < |a| && AreLimbs(a) && AreLimbs(out)
    requires (forall p | i + k < p < |out| :: out[p] == 0) && out[i + k] < Pow2(s)
    ensures var hi, lo := HighPart(a[i], s), LowPart(a[i], s);
            var r := LeftStep(a, out, k, s, i);
            && Num(r) == Num(out) + hi * (LIMB * Weight(i + k)) + lo * Weight(i + k)
            && |r| == |a| && AreLimbs(r) && (forall p | i + 1 + k < p < |out| :: r[p] == 0) && r[i + 1 + k] < Pow2(s)
  {
    hide Num, Weight, Pow2, HighPart, LowPart;
    var j := i + k;
    var hi, lo := HighPart(a[i], s), LowPart(a[i], s);
    SplitLeft(a[i], s);
    NextWeight(j);
    var mid := if s != 0 then out[j + 1 := out[j + 1] + hi] else out;
    if s != 0 {
      NumUpdate(out, j + 1, hi);
    } else {
      NoShift();
    }
    NumUpdate(mid, j, mid[j] + lo);
    Both(mid[j], lo, Weight(j));
  }

  lemma NoShift()
    ensures Pow2(0) == 1
  {
  }

  /** What the writes of step `i` find in their places. */
  lemma LeftPlaces(a: seq<nat>, out: seq<nat>, k: nat, s: nat, i: nat, dropped: nat)
    requires LeftOk(a, out, k, s, i, dropped)
    ensures |a| == |out| && (i + k + 1 < |out| ==> out[i + k + 1] == 0) && (i + k < |out| ==> out[i + k] < Pow2(s))
  {
  }

  lemma LeftEnd(a: seq<nat>, out: seq<nat>, k: nat, s: nat, dropped: nat)
    requires LeftOk(a, out, k, s, |a|, dropped)
    ensures Num(out) == Num(a) * Pow2(32 * k + s) % Weight(|a|)
  {
    hide Num, Weight, Pow2;
    NumStart(a);
    NumBound(out);
    WeightIsPow2(k);
    Pow2Add(s, 32 * k);
    assert s + 32 * k == 32 * k + s;
    Triple(Num(a), Pow2(s), Weight(k));
    Modulo(Num(out), dropped, Weight(|a|), Num(a) * Pow2(32 * k + s));
  }

  lemma Triple(x: nat, y: nat, z: nat)
    ensures x * y * z == x * (y * z)
  {
  }

  // ---------------------------------------------------------------- to the right

  function RightStep(a: seq<nat>, out: seq<nat>, k: nat, s: nat, i: nat): seq<nat>
    requires |a| == |out| && i < |a| && s < 32
  {
    var mid := if i >= k + 1 && s != 0 then out[i - k - 1 := out[i - k - 1] + Moved(a[i], s)] else out;
    if i >= k then mid[i - k := mid[i - k] + Kept(a[i], s)] else mid
  }

  /** What falls off the lowest limb. */
  ghost function Fallen(a: seq<nat>, k: nat, s: nat): nat
    requires k < |a| && s < 32
  {
    Mod(a[k], Pow2(s))
  }

  /** After `i` limbs: the limbs from `k` on, divided, with the remainder of the lowest. */
  ghost predicate RightOk(a: seq<nat>, out: seq<nat>, k: nat, s: nat, i: nat) {
    && |a| == |out| && i <= |a| && s < 32 && AreLimbs(out)
    && (forall p | 0 <= p < |out| && p + k >= i :: out[p] == 0)
    && if i <= k then true
       else out[i - k - 1] < Pow2(32 - s) && Num(out) * Pow2(s) + Fallen(a, k, s) == Num(a[k..][..i - k])
  }

  lemma RightNext(a: seq<nat>, out: seq<nat>, k: nat, s: nat, i: nat)
    requires RightOk(a, out, k, s, i) && i < |a| && AreLimbs(a)
    ensures RightOk(a, RightStep(a, out, k, s, i), k, s, i + 1)
  {
    hide Num, Weight, Pow2, Kept, Moved;
    SplitRight(a[i], s);
    if i == k {
      RightFirst(a, out, k, s);
    } else if i > k {
      RightInside(a, out, k, s, i);
    }
  }

  lemma RightFirst(a: seq<nat>, out: seq<nat>, k: nat, s: nat)
    requires |a| == |out| && k < |a| && s < 32 && AreLimbs(a) && forall p | 0 <= p < |out| :: out[p] == 0
    ensures RightOk(a, RightStep(a, out, k, s, k), k, s, k + 1)
  {
    hide Num, Weight, Pow2, Kept, Moved, Mod;
    var q := Kept(a[k], s);
    SplitRight(a[k], s);
    FitsBelow(q, s);
    NumZeros(out);
    NumUpdate(out, 0, q);
    NumStart(a[k..]);
    NumNext(a[k..], 0);
    assert Num(out[0 := q]) == q;
    assert RightStep(a, out, k, s, k) == out[0 := q];
    assert a[k..][0] == a[k];
  }

  lemma FitsBelow(q: nat, s: nat)
    requires s < 32 && q < Pow2(32 - s)
    ensures q < LIMB
  {
    Pow2Monotone(32 - s, 32);
    Pow2Limb();
  }

  lemma RightAmount(q: nat, r: nat, d: nat, h: nat, w: nat, n: nat, a: nat)
    requires d * h == LIMB && a == q * d + r
    ensures (n + r * h * w + q * (LIMB * w)) * d == n * d + a * (LIMB * w)
  {
    assert r * h * w * d == r * (h * d) * w;
    assert h * d == LIMB;
    assert r * LIMB * w == r * (LIMB * w);
    var v := LIMB * w;
    assert q * v * d == q * d * v;
    assert (q * d + r) * v == q * d * v + r * v;
  }

  lemma RightInside(a: seq<nat>, out: seq<nat>, k: nat, s: nat, i: nat)
    requires RightOk(a, out, k, s, i) && k < i < |a| && AreLimbs(a)
    ensures RightOk(a, RightStep(a, out, k, s, i), k, s, i + 1)
  {
    hide Num, Weight, Pow2, Kept, Moved, Mod, Fallen;
    var t := i - k;
    var q, moved := Kept(a[i], s), Moved(a[i], s);
    SplitRight(a[i], s);
    FitsBelow(q, s);
    RightWrites(out, t, q, moved, s);
    if s == 0 {
      NothingMoved(a[i]);
    }
    NextWeight(t - 1);
    DTimesH(s);
    RightAmount(q, Mod(a[i], Pow2(s)), Pow2(s), Pow2(32 - s), Weight(t - 1), Num(out), a[i]);
    NumNext(a[k..], t);
    assert a[k..][t] == a[i];
  }

  /** The two writes add the two parts. */
  lemma RightWrites(out: seq<nat>, t: nat, q: nat, moved: nat, s: nat)
    requires 0 < t < |out| && out[t] == 0
    ensures var mid := if s != 0 then out[t - 1 := out[t - 1] + moved] else out;
            Num(mid[t := mid[t] + q]) == Num(out) + (if s != 0 then moved * Weight(t - 1) else 0) + q * Weight(t)
  {
    hide Num, Weight;
    var mid := if s != 0 then out[t - 1 := out[t - 1] + moved] else out;
    NumUpdate(out, t - 1, out[t - 1] + moved);
    Both(out[t - 1], moved, Weight(t - 1));
    NumUpdate(mid, t, mid[t] + q);
    Both(mid[t], q, Weight(t));
  }

  lemma NothingMoved(a: nat)
    ensures Moved(a, 0) == 0
  {
    Pow2Limb();
    DivMod(a, 0, LIMB);
  }

  lemma RightStart(a: seq<nat>, out: seq<nat>, k: nat, s: nat)
    requires |a| == |out| && s < 32 && forall p | 0 <= p < |out| :: out[p] == 0
    ensures RightOk(a, out, k, s, 0)
  {
  }

  lemma RightPlaces(a: seq<nat>, out: seq<nat>, k: nat, s: nat, i: nat)
    requires RightOk(a, out, k, s, i) && i < |a|
    ensures |a| == |out| && (i >= k ==> out[i - k] == 0) && (i > k ==> out[i - k - 1] < Pow2(32 - s))
  {
  }

  lemma RightEnd(a: seq<nat>, out: seq<nat>, k: nat, s: nat)
    requires RightOk(a, out, k, s, |a|) && AreLimbs(a)
    ensures Num(out) == Num(a) / Pow2(32 * k + s)
  {
    hide Num, Weight, Pow2;
    WeightIsPow2(k);
    Pow2Add(32 * k, s);
    if k >= |a| {
      NumZeros(out);
      NumBound(a);
      WeightIsPow2(|a|);
      Pow2Monotone(32 * |a|, 32 * k + s);
      DivMod(0, Num(a), Pow2(32 * k + s));
    } else {
      SplitRight(a[k], s);
      assert a[k..][..|a| - k] == a[k..];
      assert a == a[..k] + a[k..];
      NumConcat(a[..k], a[k..]);
      NumBound(a[..k]);
      DivideParts(Num(a[..k]), Num(out), Fallen(a, k, s), Weight(k), Pow2(s));
    }
  }

  lemma DivideParts(x: nat, q: nat, r: nat, w: nat, d: nat)
    requires x < w && r < d
    ensures (x + (q * d + r) * w) / (w * d) == q
  {
    assert (q * d + r) * w == q * (w * d) + r * w;
    MulMonotone(r + 1, d, w);
    assert (r + 1) * w == r * w + w && d * w == w * d;
    DivMod(q, r * w + x, w * d);
  }
}
