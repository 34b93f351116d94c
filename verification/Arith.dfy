/** 256-bit unsigned arithmetic on eight limbs (src/arith_uint256.h, src/arith_uint256.cpp). */
module Arith {
  import opened Common
  import opened Limbs
  import opened Shifts

  const WIDTH: nat := 8

  /** 2^256. */
  function Modulus(): (r: nat)
    ensures r > 0
  {
    Weight(WIDTH)
  }

  lemma ModulusIsBig()
    ensures Modulus() >= LIMB * LIMB
  {
    WeightAdd(2, 6);
    MulMonotone(1, Weight(6), Weight(2));
    assert Weight(2) == LIMB * LIMB;
  }

  lemma FirstWeights()
    ensures Weight(0) == 1 && Weight(1) == LIMB && Weight(2) == LIMB * LIMB
  {
  }

  class ArithUint256 {
    const pn: array<nat>

    ghost predicate Valid()
      reads this, pn
    {
      pn.Length == WIDTH && AreLimbs(pn[..])
    }

    ghost function Val(): nat
      requires Valid()
      reads this, pn
    {
      Num(pn[..])
    }

    constructor ()
      ensures Valid() && fresh(pn) && Val() == 0
    {
      pn := new nat[WIDTH](_ => 0);
      new;
      NumZeros(pn[..]);
    }

    constructor Copy(b: ArithUint256)
      requires b.Valid()
      ensures Valid() && fresh(pn) && pn[..] == b.pn[..]
    {
      pn := new nat[WIDTH](_ => 0);
      new;
      for i := 0 to WIDTH
        invariant fresh(pn) && pn[..i] == b.pn[..i]
      {
        pn[i] := b.pn[i];
      }
    }

    method SetZero()
      requires Valid()
      modifies pn
      ensures Valid() && Val() == 0 && forall i | 0 <= i < WIDTH :: pn[i] == 0
    {
      for i := 0 to WIDTH
        invariant forall k | 0 <= k < i :: pn[k] == 0
        invariant forall k | 0 <= k < WIDTH :: pn[k] < LIMB
      {
        pn[i] := 0;
      }
      NumZeros(pn[..]);
    }

    /** Assignment of a 64-bit number. */
    method SetLow64(b: nat)
      requires Valid() && b < LIMB * LIMB
      modifies pn
      ensures Valid() && Val() == b
    {
      hide Num, Weight;
      SetZero();
      ghost var x := pn[..];
      pn[0] := b % LIMB;
      ghost var y := pn[..];
      assert y == x[0 := (b % LIMB) as nat];
      NumUpdate(x, 0, (b % LIMB) as nat);
      pn[1] := b / LIMB;
      assert pn[..] == y[1 := (b / LIMB) as nat];
      NumUpdate(y, 1, (b / LIMB) as nat);
      FirstWeights();
    }

    /** `GetLow64`. */
    method GetLow64() returns (r: nat)
      requires Valid()
      ensures Val() < LIMB * LIMB ==> r == Val()
    {
      hide Num, Weight;
      r := pn[0] + pn[1] * LIMB;
      ghost var x := pn[..];
      NumStart(x);
      NumNext(x, 0);
      NumNext(x, 1);
      FirstWeights();
      assert x == x[..2] + x[2..];
      NumConcat(x[..2], x[2..]);
    }

    // -------------------------------------------------------------- sums

    /** `operator+=`; the summand may be this very number. */
    method Add(b: ArithUint256)
      requires Valid() && b.Valid()
      modifies pn
      ensures Valid() && Val() == (old(Val()) + old(b.Val())) % Modulus()
    {
      hide Num, Weight;
      ghost var x, y := pn[..], b.pn[..];
      var carry: nat := 0;
      NumStart(x);
      NumStart(y);
      NumStart(pn[..]);
      for i := 0 to WIDTH
        invariant carry <= 1 && AreLimbs(pn[..])
        invariant forall k | i <= k < WIDTH :: pn[k] == x[k] && b.pn[k] == y[k]
        invariant Num(pn[..i]) + carry * Weight(i) == Num(x[..i]) + Num(y[..i])
      {
        var n := carry + pn[i] + b.pn[i];
        ghost var before := pn[..i];
        pn[i] := n % LIMB;
        assert pn[..i] == before;
        NumNext(pn[..], i);
        assert pn[..][..i + 1] == pn[..i + 1] && pn[..][..i] == pn[..i];
        NumNext(x, i);
        NumNext(y, i);
        CarryOut(n, Weight(i));
        SumStep(carry, x[i], y[i], Weight(i));
        carry := n / LIMB;
      }
      NumStart(pn[..]);
      NumBound(pn[..]);
      Modulo(Num(pn[..]), carry, Modulus(), Num(x) + Num(y));
    }

    /** `operator~`. */
    method Complement() returns (r: ArithUint256)
      requires Valid()
      ensures r.Valid() && fresh(r) && fresh(r.pn) && r.Val() == Modulus() - 1 - Val()
    {
      hide Num, Weight;
      r := new ArithUint256();
      NumStart(pn[..]);
      NumStart(r.pn[..]);
      for i := 0 to WIDTH
        invariant fresh(r.pn) && AreLimbs(r.pn[..])
        invariant Num(r.pn[..i]) + Num(pn[..][..i]) == Weight(i) - 1
      {
        ghost var before := r.pn[..i];
        r.pn[i] := LIMB - 1 - pn[i];
        assert r.pn[..i] == before;
        NumNext(r.pn[..], i);
        assert r.pn[..][..i + 1] == r.pn[..i + 1] && r.pn[..][..i] == r.pn[..i];
        NumNext(pn[..], i);
        Complete(pn[i], Weight(i));
      }
      assert r.pn[..WIDTH] == r.pn[..] && pn[..][..WIDTH] == pn[..];
    }

    /** `operator++`. */
    method Increment()
      requires Valid()
      modifies pn
      ensures Valid() && Val() == (old(Val()) + 1) % Modulus()
    {
      hide Num, Weight;
      ghost var x := pn[..];
      NumStart(x);
      NumStart(pn[..]);
      NumBound(x);
      var i := 0;
      while i < WIDTH
        invariant 0 <= i <= WIDTH && AreLimbs(pn[..])
        invariant forall k | i <= k < WIDTH :: pn[k] == x[k]
        invariant Num(pn[..i]) + Weight(i) == Num(x[..i]) + 1
      {
        ghost var before := pn[..i];
        var n := (pn[i] + 1) % LIMB;
        pn[i] := n;
        assert pn[..i] == before;
        NumNext(pn[..], i);
        assert pn[..][..i + 1] == pn[..i + 1] && pn[..][..i] == pn[..i];
        NumNext(x, i);
        NextLimb(x[i], Weight(i));
        if n != 0 {
          SameAbove(x, pn[..], i + 1);
          NumBound(pn[..]);
          Modulo(Num(pn[..]), 0, Modulus(), Num(x) + 1);
          return;
        }
        i := i + 1;
      }
      NumStart(pn[..]);
      NumBound(pn[..]);
      Modulo(Num(pn[..]), 1, Modulus(), Num(x) + 1);
    }

    /** `operator-`: the number that makes the sum zero. */
    method Negated() returns (r: ArithUint256)
      requires Valid()
      ensures r.Valid() && fresh(r) && fresh(r.pn) && r.Val() == (Modulus() - Val()) % Modulus()
    {
      hide Num, Weight;
      NumBound(pn[..]);
      r := Complement();
      r.Increment();
    }

    /** `operator-=`. */
    method Subtract(b: ArithUint256)
      requires Valid() && b.Valid()
      modifies pn
      ensures Valid() && Val() == (old(Val()) - old(b.Val())) % Modulus()
    {
      hide Num, Weight;
      NumBound(b.pn[..]);
      NumBound(pn[..]);
      ghost var x, y := Val(), b.Val();
      var n := b.Negated();
      Add(n);
      NegativeSum(x, y, Modulus());
    }

    /** `operator--`. */
    method Decrement()
      requires Valid()
      modifies pn
      ensures Valid() && Val() == (old(Val()) - 1) % Modulus()
    {
      hide Num, Weight;
      ghost var x := pn[..];
      NumStart(x);
      NumStart(pn[..]);
      NumBound(x);
      var i := 0;
      while i < WIDTH
        invariant 0 <= i <= WIDTH && AreLimbs(pn[..])
        invariant forall k | i <= k < WIDTH :: pn[k] == x[k]
        invariant Num(pn[..i]) + 1 == Num(x[..i]) + Weight(i)
      {
        ghost var before := pn[..i];
        var n := (pn[i] + LIMB - 1) % LIMB;
        pn[i] := n;
        assert pn[..i] == before;
        NumNext(pn[..], i);
        assert pn[..][..i + 1] == pn[..i + 1] && pn[..][..i] == pn[..i];
        NumNext(x, i);
        PreviousLimb(x[i], Weight(i));
        if n != LIMB - 1 {
          SameAbove(x, pn[..], i + 1);
          NumBound(pn[..]);
          Modulo(Num(pn[..]), 0, Modulus(), Num(x) - 1);
          return;
        }
        i := i + 1;
      }
      NumStart(pn[..]);
      NumBound(pn[..]);
      ModulusIsBig();
      MinusOne(Num(x), Num(pn[..]), Modulus());
    }

    // -------------------------------------------------------------- products

    /** `operator*=` by a 32-bit number. No sum exceeds the 64 bits it is kept in. */
    method MultiplySmall(b32: nat)
      requires Valid() && b32 < LIMB
      modifies pn
      ensures Valid() && Val() == old(Val()) * b32 % Modulus()
    {
      hide Num, Weight, ScaledOk, MultiplyAdd, Product;
      ghost var x := pn[..];
      var carry: nat := 0;
      ScaledStart(x, b32);
      for i := 0 to WIDTH
        invariant AreLimbs(pn[..]) && carry < LIMB && ScaledOk(x, pn[..], b32, i, carry)
      {
        ghost var before := pn[..];
        var n := MultiplyAdd(carry, 0, b32, pn[i]);
        ScaledNext(x, before, b32, i, carry);
        var low: nat := n % LIMB;
        pn[i] := low;
        assert pn[..] == before[i := low];
        carry := n / LIMB;
      }
      ScaledEnd(x, pn[..], b32, carry);
    }

    /** One row of the long multiplication: adds `aj * b` at limb `j`, as far as there are limbs. No sum
        exceeds the 64 bits it is kept in, although the largest fills them. */
    method AddRow(b: ArithUint256, aj: nat, j: nat) returns (ghost k: nat)
      requires Valid() && b.Valid() && aj < LIMB && j < WIDTH && b.pn != pn
      modifies pn
      ensures Valid()
      ensures Val() + k * Modulus() == old(Val()) + aj * b.Val() * Weight(j)
    {
      hide Num, Weight, RowOk, MultiplyAdd, Product;
      ghost var x, y := pn[..], b.pn[..];
      var carry: nat := 0;
      RowStart(x, y, aj, j);
      for i := 0 to WIDTH - j
        invariant AreLimbs(pn[..]) && carry < LIMB && RowOk(x, pn[..], y, aj, j, i, carry)
      {
        var n := MultiplyAdd(carry, pn[i + j], aj, b.pn[i]);
        ghost var before := pn[..];
        RowNext(x, before, y, aj, j, i, carry);
        var low: nat := n % LIMB;
        pn[i + j] := low;
        assert pn[..] == before[i + j := low];
        carry := n / LIMB;
      }
      k := RowEnd(x, pn[..], y, aj, j, carry);
    }

    /** `operator*=`. The product is right unless the factor is this very number, which has been set to
        zero by the time it is read. */
    method Multiply(b: ArithUint256)
      requires Valid() && b.Valid()
      modifies pn
      ensures Valid()
      ensures b.pn != pn ==> Val() == old(Val()) * b.Val() % Modulus()
      ensures b.pn == pn ==> Val() == 0
    {
      hide Num, Weight;
      var a := new ArithUint256.Copy(this);
      ghost var x := a.pn[..];
      SetZero();
      if b.pn == pn {
        MultiplyByZero(a, b);
        return;
      }
      ghost var dropped: nat := 0;
      NumStart(x);
      for j := 0 to WIDTH
        invariant Valid() && a.pn[..] == x && b.Valid() && b.Val() == old(b.Val())
        invariant Val() + dropped * Modulus() == Num(x[..j]) * b.Val()
      {
        ghost var before := Val();
        ghost var k := AddRow(b, a.pn[j], j);
        NumNext(x, j);
        ManyRows(Num(x[..j]), x[j], Weight(j), b.Val(), dropped, k, Modulus());
        dropped := dropped + k;
      }
      assert x[..WIDTH] == x;
      NumBound(pn[..]);
      Modulo(Val(), dropped, Modulus(), Num(x) * b.Val());
    }

    /** Every limb read from the factor is zero, so every limb stays zero. */
    method MultiplyByZero(a: ArithUint256, b: ArithUint256)
      requires Valid() && a.Valid() && b.pn == pn && a.pn != pn && forall i | 0 <= i < WIDTH :: pn[i] == 0
      modifies pn
      ensures Valid() && Val() == 0
    {
      for j := 0 to WIDTH
        invariant forall k | 0 <= k < WIDTH :: pn[k] == 0
      {
        var carry: nat := 0;
        for i := 0 to WIDTH - j
          invariant carry == 0 && forall k | 0 <= k < WIDTH :: pn[k] == 0
        {
          var n := MultiplyAdd(carry, pn[i + j], a.pn[j], b.pn[i]);
          pn[i + j] := n % LIMB;
          carry := n / LIMB;
        }
      }
      NumZeros(pn[..]);
    }

    // -------------------------------------------------------------- shifts

    /** The writes for limb `i` of a shift to the left by `32 * k + s`. */
    method ShiftLimbLeft(a: ArithUint256, k: nat, s: nat, i: nat)
      requires Valid() && a.Valid() && a.pn != pn && i < WIDTH && s < 32
      requires (i + k + 1 < WIDTH ==> pn[i + k + 1] == 0) && (i + k < WIDTH ==> pn[i + k] < Pow2(s))
      modifies pn
      ensures pn[..] == LeftStep(a.pn[..], old(pn[..]), k, s, i)
    {
      hide Pow2, HighPart, LowPart, Mod;
      OrParts(a.pn[i], s);
      if i + k + 1 < WIDTH && s != 0 {
        pn[i + k + 1] := Or(pn[i + k + 1], HighPart(a.pn[i], s), 0);
      }
      if i + k < WIDTH {
        pn[i + k] := Or(pn[i + k], LowPart(a.pn[i], s), s);
      }
    }

    /** `operator<<=`. */
    method ShiftLeft(n: nat)
      requires Valid()
      modifies pn
      ensures Valid() && Val() == old(Val()) * Pow2(n) % Modulus()
    {
      hide Num, Weight, Pow2, LeftOk, LeftStep;
      var a := new ArithUint256.Copy(this);
      SetZero();
      var k, s := n / 32, n % 32;
      ghost var x, dropped: nat := a.pn[..], 0;
      LeftStart(x, pn[..], k, s);
      for i := 0 to WIDTH
        invariant Valid() && a.pn[..] == x && LeftOk(x, pn[..], k, s, i, dropped)
      {
        LeftPlaces(x, pn[..], k, s, i, dropped);
        ghost var more := LeftNext(x, pn[..], k, s, i, dropped);
        ShiftLimbLeft(a, k, s, i);
        LeftValid(x, pn[..], k, s, i + 1, dropped + more);
        dropped := dropped + more;
      }
      ShiftedLeft(x, pn[..], n, dropped);
    }

    /** The writes for limb `i` of a shift to the right by `32 * k + s`. */
    method ShiftLimbRight(a: ArithUint256, k: nat, s: nat, i: nat)
      requires Valid() && a.Valid() && a.pn != pn && i < WIDTH && s < 32
      requires (i >= k ==> pn[i - k] == 0) && (i > k ==> pn[i - k - 1] < Pow2(32 - s))
      modifies pn
      ensures pn[..] == RightStep(a.pn[..], old(pn[..]), k, s, i)
    {
      hide Pow2, Kept, Moved, Mod;
      OrParts(a.pn[i], s);
      if i - k - 1 >= 0 && s != 0 {
        pn[i - k - 1] := Or(pn[i - k - 1], Moved(a.pn[i], s), 32 - s);
      }
      if i - k >= 0 {
        pn[i - k] := Or(pn[i - k], Kept(a.pn[i], s), 0);
      }
    }

    /** `operator>>=`. */
    method ShiftRight(n: nat)
      requires Valid()
      modifies pn
      ensures Valid() && Val() == old(Val()) / Pow2(n)
    {
      hide Num, Weight, Pow2, RightOk, RightStep;
      var a := new ArithUint256.Copy(this);
      SetZero();
      var k, s := n / 32, n % 32;
      ghost var x := a.pn[..];
      RightStart(x, pn[..], k, s);
      for i := 0 to WIDTH
        invariant Valid() && a.pn[..] == x && RightOk(x, pn[..], k, s, i)
      {
        RightPlaces(x, pn[..], k, s, i);
        RightNext(x, pn[..], k, s, i);
        ShiftLimbRight(a, k, s, i);
        RightValid(x, pn[..], k, s, i + 1);
      }
      ShiftedRight(x, pn[..], n);
    }

    // -------------------------------------------------------------- comparison

    /** `CompareTo`: the sign of the difference. */
    method CompareTo(b: ArithUint256) returns (c: int)
      requires Valid() && b.Valid()
      ensures c == if Val() < b.Val() then -1 else if Val() > b.Val() then 1 else 0
    {
      hide Num, Weight;
      var i := WIDTH;
      while i > 0
        invariant 0 <= i <= WIDTH && forall k | i <= k < WIDTH :: pn[k] == b.pn[k]
      {
        i := i - 1;
        if pn[i] < b.pn[i] {
          assert pn[..][i + 1..] == b.pn[..][i + 1..];
          HigherDecides(pn[..], b.pn[..], i);
          return -1;
        }
        if pn[i] > b.pn[i] {
          assert pn[..][i + 1..] == b.pn[..][i + 1..];
          HigherDecides(b.pn[..], pn[..], i);
          return 1;
        }
      }
      assert pn[..] == b.pn[..];
      return 0;
    }

    // -------------------------------------------------------------- division

    /** `bits`: one more than the position of the highest one bit. */
    method Bits() returns (n: nat)
      requires Valid()
      ensures n <= 32 * WIDTH && IsBits(Val(), n)
    {
      hide Num, Weight, Pow2;
      var pos := WIDTH;
      while pos > 0
        invariant 0 <= pos <= WIDTH && forall k | pos <= k < WIDTH :: pn[k] == 0
      {
        pos := pos - 1;
        if pn[pos] != 0 {
          var nbits := 31;
          Pow2Limb();
          while nbits > 0
            invariant 0 <= nbits <= 31 && pn[pos] < Pow2(nbits + 1)
          {
            BitTest(pn[pos], nbits);
            if Mod(Div(pn[pos], Pow2(nbits)), 2) == 1 {
              HighestBit(pn[..], pos, nbits);
              return 32 * pos + nbits + 1;
            }
            nbits := nbits - 1;
          }
          LowestBit(pn[pos]);
          HighestBit(pn[..], pos, 0);
          return 32 * pos + 1;
        }
      }
      NumZeros(pn[..]);
      return 0;
    }

    /** Sets bit `shift`, below which there is none. */
    method SetBit(shift: nat)
      requires Valid() && shift < 32 * WIDTH && ClearTo(pn[..], shift)
      modifies pn
      ensures Valid() && Val() == old(Val()) + Pow2(shift)
      ensures shift > 0 ==> ClearTo(pn[..], shift - 1)
    {
      hide Num, Weight, Pow2;
      var p, t := shift / 32, shift % 32;
      ghost var x := pn[..];
      BitFits(x[p], t);
      NumUpdate(x, p, x[p] + Pow2(t));
      Both(x[p], Pow2(t), Weight(p));
      WeightIsPow2(p);
      Pow2Add(t, 32 * p);
      pn[p] := pn[p] + Pow2(t);
      assert pn[..] == x[p := x[p] + Pow2(t)];
      assert t + 32 * p == shift;
      if shift > 0 {
        ClearNext(x, pn[..], shift);
      }
    }

    /** `operator/=`; nothing but an error for division by zero, which leaves zero. */
    method Divide(b: ArithUint256) returns (ok: bool)
      requires Valid() && b.Valid()
      modifies pn
      ensures Valid() && (ok <==> old(b.Val()) != 0)
      ensures ok ==> Val() == old(Val()) / old(b.Val())
      ensures !ok ==> Val() == 0
    {
      hide Num, Weight, Pow2, ClearTo;
      ghost var v, w := Val(), b.Val();
      NumBound(pn[..]);
      var div := new ArithUint256.Copy(b);
      var num := new ArithUint256.Copy(this);
      SetZero();
      var numBits := num.Bits();
      var divBits := div.Bits();
      if divBits == 0 {
        return false;
      }
      ok := true;
      if divBits > numBits {
        SmallerBits(v, numBits, w, divBits);
        return;
      }
      var shift: int := numBits - divBits;
      Aligned(v, numBits, w, divBits);
      AllClear(pn[..], shift);
      div.ShiftLeft(shift);
      LongDivision(num, div, shift, v, w);
    }

    /** The loop that sets the bits of the quotient from the highest down. */
    method LongDivision(num: ArithUint256, div: ArithUint256, start: nat, ghost v: nat, ghost w: nat)
      requires Valid() && num.Valid() && div.Valid() && num.pn != pn && div.pn != pn && num.pn != div.pn
      requires start < 32 * WIDTH && Val() == 0 && ClearTo(pn[..], start)
      requires num.Val() == v < w * Pow2(start + 1) && div.Val() == w * Pow2(start)
      modifies pn, num.pn, div.pn
      ensures Valid() && w > 0 && Val() == v / w
    {
      hide Num, Weight, Pow2, ClearTo;
      var shift: int := start;
      while shift >= 0
        invariant -1 <= shift <= start && Valid() && num.Valid() && div.Valid()
        invariant v == Val() * w + num.Val() && num.Val() < w * Pow2(shift + 1)
        invariant shift >= 0 ==> div.Val() == w * Pow2(shift) && ClearTo(pn[..], shift)
      {
        var c := num.CompareTo(div);
        DivisionStep(v, w, Val(), num.Val(), shift);
        if c >= 0 {
          SubtractFits(num, div);
          num.Subtract(div);
          SetBit(shift);
        } else if shift > 0 {
          ClearBelow(pn[..], shift);
        }
        div.ShiftRight(1);
        shift := shift - 1;
      }
      DivisionEnd(v, w, Val(), num.Val());
    }
  }

  lemma SubtractFits(a: ArithUint256, b: ArithUint256)
    requires a.Valid() && b.Valid() && a.Val() >= b.Val()
    ensures (a.Val() - b.Val()) % Modulus() == a.Val() - b.Val()
  {
    hide Num, Weight;
    NumBound(a.pn[..]);
    DivMod(0, a.Val() - b.Val(), Modulus());
  }

  /** `n` is the length of `v` in bits. */
  ghost predicate IsBits(v: nat, n: nat) {
    if n == 0 then v == 0 else Pow2(n - 1) <= v < Pow2(n)
  }

  lemma BitTest(a: nat, nbits: nat)
    requires a < Pow2(nbits + 1)
    ensures if Mod(Div(a, Pow2(nbits)), 2) == 1 then a >= Pow2(nbits) else a < Pow2(nbits)
  {
    var p := Pow2(nbits);
    assert Pow2(nbits + 1) == 2 * p;
    if a >= p {
      DivMod(1, a - p, p);
    } else {
      DivMod(0, a, p);
    }
  }

  lemma LowestBit(a: nat)
    requires 0 < a < Pow2(1)
    ensures Pow2(0) <= a
  {
  }

  lemma HighestBit(s: seq<nat>, pos: nat, nbits: nat)
    requires pos < |s| && nbits < 32 && AreLimbs(s) && (forall k | pos < k < |s| :: s[k] == 0)
    requires Pow2(nbits) <= s[pos] < Pow2(nbits + 1)
    ensures IsBits(Num(s), 32 * pos + nbits + 1)
  {
    hide Num, Weight, Pow2;
    assert s == s[..pos + 1] + s[pos + 1..];
    NumConcat(s[..pos + 1], s[pos + 1..]);
    NumZeros(s[pos + 1..]);
    NumNext(s, pos);
    NumBound(s[..pos]);
    WeightIsPow2(pos);
    Pow2Add(nbits, 32 * pos);
    Pow2Add(nbits + 1, 32 * pos);
    MulMonotone(Pow2(nbits), s[pos], Weight(pos));
    MulMonotone(s[pos] + 1, Pow2(nbits + 1), Weight(pos));
    Both(s[pos], 1, Weight(pos));
    assert nbits + 32 * pos == 32 * pos + nbits;
  }

  /** No bit up to and including `shift` is set. */
  ghost predicate ClearTo(s: seq<nat>, shift: nat)
    requires shift < 32 * |s|
  {
    (forall k | 0 <= k < shift / 32 :: s[k] == 0) && Mod(s[shift / 32], Pow2(shift % 32 + 1)) == 0
  }

  lemma AllClear(s: seq<nat>, shift: nat)
    requires shift < 32 * |s| && forall k | 0 <= k < |s| :: s[k] == 0
    ensures ClearTo(s, shift)
  {
    DivMod(0, 0, Pow2(shift % 32 + 1));
  }

  lemma BitFits(a: nat, t: nat)
    requires a < LIMB && t < 32 && Mod(a, Pow2(t + 1)) == 0
    ensures a + Pow2(t) < LIMB
  {
    var p := Pow2(t + 1);
    var q := Div(a, p);
    DivFacts(a, p);
    Pow2Add(t + 1, 31 - t);
    Pow2Limb();
    assert Pow2(32) == 2 * Pow2(31) by { Half(32); }
    Half(t + 1);
    var h := Pow2(31 - t);
    assert LIMB == p * h by { Commute(p, h); }
    if q >= h {
      MulMonotone(h, q, p);
      assert false;
    }
    MulMonotone(q + 1, h, p);
    Both(q, 1, p);
  }

  lemma Half(k: nat)
    requires k > 0
    ensures Pow2(k) == 2 * Pow2(k - 1)
  {
  }

  /** A number without bits up to `shift` has none up to `shift - 1`. */
  lemma ClearBelow(s: seq<nat>, shift: nat)
    requires 0 < shift < 32 * |s| && ClearTo(s, shift)
    ensures ClearTo(s, shift - 1)
  {
    hide Pow2;
    var t := shift % 32;
    if t > 0 {
      Half(t + 1);
      MultipleOfHalf(s[shift / 32], Pow2(t));
    } else {
      DivMod(0, 0, Pow2(32));
    }
  }

  lemma MultipleOfHalf(a: nat, p: nat)
    requires p > 0 && Mod(a, 2 * p) == 0
    ensures Mod(a, p) == 0 && Mod(a + p, p) == 0
  {
    var q := Div(a, 2 * p);
    DivFacts(a, 2 * p);
    assert a == 2 * q * p;
    DivMod(2 * q, 0, p);
    Both(2 * q, 1, p);
    DivMod(2 * q + 1, 0, p);
  }

  lemma ClearNext(x: seq<nat>, s: seq<nat>, shift: nat)
    requires |x| == |s| && 0 < shift < 32 * |s| && ClearTo(x, shift)
    requires s == x[shift / 32 := x[shift / 32] + Pow2(shift % 32)]
    ensures ClearTo(s, shift - 1)
  {
    hide Pow2;
    var t := shift % 32;
    if t > 0 {
      Half(t + 1);
      MultipleOfHalf(x[shift / 32], Pow2(t));
    } else {
      DivMod(0, 0, Pow2(32));
    }
  }

  lemma SmallerBits(v: nat, n: nat, w: nat, m: nat)
    requires IsBits(v, n) && IsBits(w, m) && n < m
    ensures v < w && w > 0 && v / w == 0
  {
    hide Pow2;
    Pow2Monotone(n, m - 1);
    PowZero();
    DivMod(0, v, w);
  }

  lemma PowZero()
    ensures Pow2(0) == 1
  {
  }

  /** The shifted divisor fits, and twice it exceeds the numerator. */
  lemma Aligned(v: nat, n: nat, w: nat, m: nat)
    requires IsBits(v, n) && IsBits(w, m) && 0 < m <= n <= 32 * WIDTH && v < Modulus()
    ensures w > 0 && w * Pow2(n - m) % Modulus() == w * Pow2(n - m) && v < w * Pow2(n - m + 1)
  {
    hide Pow2, Weight;
    var d := Pow2(n - m);
    Pow2Add(m, n - m);
    Pow2Add(m - 1, n - m + 1);
    WeightIsPow2(WIDTH);
    Pow2Monotone(n, 32 * WIDTH);
    MulMonotone(w + 1, Pow2(m), d);
    Both(w, 1, d);
    DivMod(0, w * d, Modulus());
    MulMonotone(Pow2(m - 1), w, Pow2(n - m + 1));
  }

  lemma DivisionStep(v: nat, w: nat, q: nat, r: nat, shift: nat)
    requires v == q * w + r && r < w * Pow2(shift + 1)
    ensures r >= w * Pow2(shift) ==> v == (q + Pow2(shift)) * w + (r - w * Pow2(shift)) && r - w * Pow2(shift) < w * Pow2(shift)
    ensures w * Pow2(shift + 1) == 2 * (w * Pow2(shift))
    ensures shift > 0 ==> w * Pow2(shift) / Pow2(1) == w * Pow2(shift - 1)
  {
    var p := Pow2(shift);
    assert Pow2(shift + 1) == 2 * p;
    assert w * (2 * p) == 2 * (w * p);
    Both(q, p, w);
    Commute(p, w);
    if shift > 0 {
      assert w * (2 * Pow2(shift - 1)) == 2 * (w * Pow2(shift - 1));
    }
  }

  lemma DivisionEnd(v: nat, w: nat, q: nat, r: nat)
    requires v == q * w + r && r < w * Pow2(0)
    ensures w > 0 && q == v / w
  {
    assert w * 1 == w;
    DivMod(q, r, w);
  }

  lemma Complete(a: nat, w: nat)
    requires a < LIMB
    ensures (LIMB - 1 - a) * w + a * w == (LIMB - 1) * w
    ensures LIMB * w == (LIMB - 1) * w + w
  {
  }

  lemma NextLimb(a: nat, w: nat)
    requires a < LIMB
    ensures (a + 1) % LIMB == 0 ==> a == LIMB - 1 && (a + 1) % LIMB * w + LIMB * w == a * w + w
    ensures (a + 1) % LIMB != 0 ==> (a + 1) % LIMB * w == a * w + w
  {
    assert (LIMB - 1) * w + w == LIMB * w;
    assert (a + 1) * w == a * w + w;
  }

  lemma PreviousLimb(a: nat, w: nat)
    requires a < LIMB
    ensures a == 0 ==> (a + LIMB - 1) % LIMB == LIMB - 1 && (a + LIMB - 1) % LIMB * w + w == LIMB * w
    ensures a != 0 ==> (a + LIMB - 1) % LIMB == a - 1 && (a + LIMB - 1) % LIMB * w + w == a * w
  {
    assert (LIMB - 1) * w + w == LIMB * w;
    assert a > 0 ==> (a - 1) * w + w == a * w;
  }

  /** Numbers that differ only below limb `i` differ by the difference of the low parts. */
  lemma SameAbove(x: seq<nat>, y: seq<nat>, i: nat)
    requires |x| == |y| && i <= |x| && forall k | i <= k < |x| :: x[k] == y[k]
    ensures Num(x) + Num(y[..i]) == Num(y) + Num(x[..i])
  {
    hide Num, Weight;
    assert x == x[..i] + x[i..] && y == y[..i] + y[i..];
    assert x[i..] == y[i..];
    NumConcat(x[..i], x[i..]);
    NumConcat(y[..i], y[i..]);
  }

  lemma NegativeSum(x: nat, y: nat, m: nat)
    requires m > 0 && y < m && x < m
    ensures (x + (m - y) % m) % m == (x - y) % m
  {
    AddModulus(x - y, m);
    if y == 0 {
      AddModulus(0, m);
      Small(0, m);
    } else {
      Small(m - y, m);
    }
  }

  lemma Small(a: nat, m: nat)
    requires a < m
    ensures a % m == a
  {
    DivMod(0, a, m);
  }

  /** Adding the modulus changes nothing, also to a negative number. */
  lemma AddModulus(d: int, m: nat)
    requires m > 0
    ensures (d + m) % m == d % m
  {
    var q, r, q', r' := d / m, d % m, (d + m) / m, (d + m) % m;
    assert d == q * m + r && d + m == q' * m + r';
    NextMultiple(q, m);
    if q' < q + 1 {
      IntMonotone(q' + 1, q + 1, m);
      NextMultiple(q', m);
      assert false;
    } else if q' > q + 1 {
      IntMonotone(q + 2, q', m);
      NextMultiple(q + 1, m);
      assert false;
    }
  }

  lemma NextMultiple(q: int, m: nat)
    ensures (q + 1) * m == q * m + m
  {
  }

  lemma IntMonotone(a: int, b: int, m: nat)
    requires a <= b
    ensures a * m <= b * m
  {
  }

  lemma MinusOne(x: nat, y: nat, m: nat)
    requires m > 1 && y < m && x < m && y + 1 == x + m
    ensures y == (x - 1) % m
  {
    AddModulus(x - 1, m);
    Small(y, m);
  }

  /** After `i` limbs of the product with one limb. */
  ghost predicate ScaledOk(x: seq<nat>, now: seq<nat>, b: nat, i: nat, carry: nat) {
    && |x| == |now| && i <= |x| && (forall k | i <= k < |x| :: now[k] == x[k])
    && Num(now[..i]) + carry * Weight(i) == Num(x[..i]) * b
  }

  lemma ScaledStart(x: seq<nat>, b: nat)
    ensures ScaledOk(x, x, b, 0, 0)
  {
    NumStart(x);
  }

  lemma ScaledNext(x: seq<nat>, now: seq<nat>, b: nat, i: nat, carry: nat)
    requires ScaledOk(x, now, b, i, carry) && i < |x| && carry < LIMB && AreLimbs(now) && b < LIMB
    ensures var n := MultiplyAdd(carry, 0, b, now[i]);
            ScaledOk(x, now[i := (n % LIMB) as nat], b, i + 1, n / LIMB)
  {
    hide Num, Weight, MultiplyAdd;
    var n := MultiplyAdd(carry, 0, b, now[i]);
    var next := now[i := (n % LIMB) as nat];
    assert next[..i] == now[..i];
    NumNext(next, i);
    NumNext(x, i);
    CarryOut(n, Weight(i));
    ProductStep(carry, b, x[i], Weight(i), Num(x[..i]), n);
  }

  lemma ScaledEnd(x: seq<nat>, now: seq<nat>, b: nat, carry: nat)
    requires |x| == WIDTH && AreLimbs(now) && ScaledOk(x, now, b, WIDTH, carry)
    ensures Num(now) == Num(x) * b % Modulus()
  {
    hide Num, Weight;
    assert now[..WIDTH] == now && x[..WIDTH] == x;
    NumBound(now);
    Modulo(Num(now), carry, Modulus(), Num(x) * b);
  }

  /** After `i` limbs of the row. */
  ghost predicate RowOk(x: seq<nat>, now: seq<nat>, y: seq<nat>, aj: nat, j: nat, i: nat, carry: nat) {
    && |x| == |now| == |y| && i + j <= |x| && (forall k | i + j <= k < |x| :: now[k] == x[k])
    && Num(now[..i + j]) + carry * Weight(i + j) == Num(x[..i + j]) + aj * Num(y[..i]) * Weight(j)
  }

  lemma RowStart(x: seq<nat>, y: seq<nat>, aj: nat, j: nat)
    requires |x| == |y| && j <= |x|
    ensures RowOk(x, x, y, aj, j, 0, 0)
  {
    NumStart(y);
  }

  lemma RowNext(x: seq<nat>, now: seq<nat>, y: seq<nat>, aj: nat, j: nat, i: nat, carry: nat)
    requires RowOk(x, now, y, aj, j, i, carry) && i + j < |x|
    requires carry < LIMB && AreLimbs(now) && aj < LIMB && AreLimbs(y)
    ensures var n := MultiplyAdd(carry, now[i + j], aj, y[i]);
            RowOk(x, now[i + j := (n % LIMB) as nat], y, aj, j, i + 1, n / LIMB)
  {
    hide Num, Weight;
    var p := i + j;
    var n := MultiplyAdd(carry, now[p], aj, y[i]);
    var next := now[p := (n % LIMB) as nat];
    assert next[..p] == now[..p];
    NumNext(next, p);
    NumNext(x, p);
    NumNext(y, i);
    CarryOut(n, Weight(p));
    WeightAdd(i, j);
    RowStep(carry, x[p], aj, y[i], Weight(i), Weight(j), Num(y[..i]));
  }

  lemma RowStep(carry: nat, x: nat, aj: nat, y: nat, wi: nat, wj: nat, low: nat)
    ensures (carry + x + aj * y) * (wi * wj) == carry * (wi * wj) + x * (wi * wj) + aj * (y * wi) * wj
    ensures aj * (low + y * wi) * wj == aj * low * wj + aj * (y * wi) * wj
  {
    var w := wi * wj;
    assert aj * y * w == aj * (y * wi) * wj;
    assert (carry + x + aj * y) * w == carry * w + x * w + aj * y * w;
    assert aj * (low + y * wi) == aj * low + aj * (y * wi);
  }

  /** The row as a whole, what does not fit being a multiple of the modulus. */
  lemma RowEnd(x: seq<nat>, now: seq<nat>, y: seq<nat>, aj: nat, j: nat, carry: nat) returns (k: nat)
    requires j <= WIDTH == |x| && RowOk(x, now, y, aj, j, WIDTH - j, carry)
    ensures Num(now) + k * Modulus() == Num(x) + aj * Num(y) * Weight(j)
  {
    hide Num, Weight;
    var m := WIDTH - j;
    assert now[..WIDTH] == now && x[..WIDTH] == x;
    assert y == y[..m] + y[m..];
    NumConcat(y[..m], y[m..]);
    WeightAdd(m, j);
    RowTotal(aj, Num(y[..m]), Num(y[m..]), Weight(m), Weight(j), carry);
    k := carry + aj * Num(y[m..]);
  }

  lemma RowTotal(aj: nat, low: nat, high: nat, wm: nat, wj: nat, carry: nat)
    ensures aj * (low + high * wm) * wj == aj * low * wj + aj * high * (wm * wj)
    ensures (carry + aj * high) * (wm * wj) == carry * (wm * wj) + aj * high * (wm * wj)
  {
    assert aj * (low + high * wm) == aj * low + aj * (high * wm);
    assert aj * (high * wm) * wj == aj * high * (wm * wj);
  }

  lemma ShiftedLeft(x: seq<nat>, out: seq<nat>, n: nat, dropped: nat)
    requires |x| == WIDTH && LeftOk(x, out, n / 32, n % 32, WIDTH, dropped)
    ensures Num(out) == Num(x) * Pow2(n) % Modulus()
  {
    hide Num, Weight, Pow2, LeftOk;
    LeftEnd(x, out, n / 32, n % 32, dropped);
    assert 32 * (n / 32) + n % 32 == n;
  }

  lemma ShiftedRight(x: seq<nat>, out: seq<nat>, n: nat)
    requires |x| == WIDTH && AreLimbs(x) && RightOk(x, out, n / 32, n % 32, WIDTH)
    ensures Num(out) == Num(x) / Pow2(n)
  {
    hide Num, Weight, Pow2, RightOk;
    RightEnd(x, out, n / 32, n % 32);
    assert 32 * (n / 32) + n % 32 == n;
  }

  lemma LeftValid(x: seq<nat>, out: seq<nat>, k: nat, s: nat, i: nat, dropped: nat)
    requires LeftOk(x, out, k, s, i, dropped)
    ensures AreLimbs(out)
  {
  }

  lemma RightValid(x: seq<nat>, out: seq<nat>, k: nat, s: nat, i: nat)
    requires RightOk(x, out, k, s, i)
    ensures AreLimbs(out)
  {
  }

  lemma ManyRows(low: nat, x: nat, w: nat, b: nat, dropped: nat, k: nat, m: nat)
    ensures (low + x * w) * b == low * b + x * b * w
    ensures (dropped + k) * m == dropped * m + k * m
  {
    assert x * w * b == x * b * w;
  }

  /** The product of two limbs. */
  function Product(a: nat, b: nat): (r: nat)
    requires a < LIMB && b < LIMB
    ensures r <= TWO64 - 1 - 2 * (LIMB - 1)
  {
    MulMonotone(a, LIMB - 1, b);
    a * b
  }

  /** One sum of a multiplication, kept in 64 bits. It fits them, although the largest fills them. */
  function MultiplyAdd(carry: nat, p: nat, a: nat, b: nat): (n: nat)
    requires carry < LIMB && p < LIMB && a < LIMB && b < LIMB
    ensures n < TWO64
  {
    carry + p + Product(a, b)
  }

  lemma ProductStep(carry: nat, b: nat, a: nat, w: nat, low: nat, n: nat)
    requires carry < LIMB && a < LIMB && b < LIMB && n == MultiplyAdd(carry, 0, b, a)
    ensures n * w == carry * w + a * w * b
    ensures (low + a * w) * b == low * b + a * w * b
  {
    assert b * a * w == a * w * b;
  }

  lemma SumStep(carry: nat, a: nat, b: nat, w: nat)
    ensures (carry + a + b) * w == carry * w + a * w + b * w
  {
  }
}
