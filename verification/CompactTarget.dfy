/** Targets in compact form and the work they stand for (src/arith_uint256.cpp, src/chain.cpp). */
module CompactTarget {
  import opened Common
  import opened Limbs
  import opened Shifts
  import opened Arith

  const SIGN: nat := 0x80_0000
  const SIZE: nat := 0x100_0000

  /** Bytes as a shift. */
  ghost function Bytes(k: nat): nat {
    Pow2(8 * k)
  }

  lemma BytesAdd(i: nat, j: nat)
    ensures Bytes(i + j) == Bytes(i) * Bytes(j) && Bytes(1) == 256 && Bytes(2) == 0x1_0000 && Bytes(3) == SIZE && Bytes(0) == 1
  {
    Pow2Add(8 * i, 8 * j);
    assert 8 * i + 8 * j == 8 * (i + j);
    assert Pow2(8) == 256;
    Pow2Add(8, 8);
    Pow2Add(16, 8);
  }

  // ---------------------------------------------------------------- what compact forms mean

  /** The number a compact form stands for, sign aside and however large. */
  ghost function Expand(n: nat): nat {
    var size, word := Div(n, SIZE), Mod(n, SIGN);
    if size <= 3 then Div(word, Bytes(3 - size)) else word * Bytes(size - 3)
  }

  /** `l` is the length of `v` in bytes. */
  ghost predicate IsBytes(v: nat, l: nat) {
    if l == 0 then v == 0 else Bytes(l - 1) <= v < Bytes(l)
  }

  /** The three highest bytes. */
  ghost function Top(v: nat, l: nat): nat {
    if l <= 3 then v * Bytes(3 - l) else Div(v, Bytes(l - 3))
  }

  /** The compact form of a number: its three highest bytes, or two when the highest bit would be taken for
      the sign. */
  ghost function Compact(v: nat, l: nat): nat {
    var c := Top(v, l);
    if c >= SIGN then Div(c, 256) + (l + 1) * SIZE else c + l * SIZE
  }

  /** What compact form cuts off: multiples of this are kept. */
  ghost function Unit(v: nat, l: nat): nat {
    var k := if Top(v, l) >= SIGN then 2 else 3;
    if l <= k then 1 else Bytes(l - k)
  }

  lemma TopBound(v: nat, l: nat)
    requires IsBytes(v, l)
    ensures Top(v, l) < SIZE
    ensures l > 0 ==> Top(v, l) >= 0x1_0000
  {
    hide Bytes, Div;
    BytesAdd(0, 0);
    if l == 0 {
    } else if l <= 3 {
      BytesAdd(l, 3 - l);
      BytesAdd(l - 1, 3 - l);
      MulMonotone(v + 1, Bytes(l), Bytes(3 - l));
      Both(v, 1, Bytes(3 - l));
      MulMonotone(Bytes(l - 1), v, Bytes(3 - l));
    } else {
      BytesAdd(3, l - 3);
      BytesAdd(2, l - 3);
      var p, q := Bytes(l - 3), Div(v, Bytes(l - 3));
      BytesPositive(l - 3);
      DivFacts(v, p);
      if q >= SIZE {
        MulMonotone(SIZE, q, p);
        assert false;
      }
      if q < 0x1_0000 {
        MulMonotone(q + 1, 0x1_0000, p);
        Both(q, 1, p);
        assert false;
      }
    }
  }

  lemma BytesPositive(k: nat)
    ensures Bytes(k) > 0
  {
  }

  /** Reading the parts of a compact form back. */
  lemma CompactParts(c: nat, l: nat)
    requires c < SIGN
    ensures Div(c + l * SIZE, SIZE) == l && Mod(c + l * SIZE, SIGN) == c
  {
    DivMod(l, c, SIZE);
    assert c + l * SIZE == 2 * l * SIGN + c;
    DivMod(2 * l, c, SIGN);
  }

  /** Expanding a compact form gives the number rounded down to a multiple of the unit. */
  lemma ExpandCompact(v: nat, l: nat)
    requires IsBytes(v, l)
    ensures Unit(v, l) > 0 && Expand(Compact(v, l)) == Div(v, Unit(v, l)) * Unit(v, l)
  {
    hide Bytes, Div, Mod;
    var c := Top(v, l);
    TopBound(v, l);
    BytesAdd(0, 0);
    DivOne(v);
    if c < SIGN {
      CompactParts(c, l);
      if l <= 3 {
        BytesPositive(3 - l);
        DivOfProduct(v, Bytes(3 - l));
      } else {
        BytesPositive(l - 3);
      }
    } else {
      var d := Div(c, 256);
      DivFacts(c, 256);
      CompactParts(d, l + 1);
      if l <= 2 {
        BytesAdd(1, 2 - l);
        BytesPositive(2 - l);
        assert c == v * (256 * Bytes(2 - l));
        Regroup(v, 256, Bytes(2 - l));
        DivOfProduct(v * Bytes(2 - l), 256);
        DivOfProduct(v, Bytes(2 - l));
      } else if l == 3 {
        assert c == v * 1 == v;
      } else {
        BytesAdd(1, l - 3);
        BytesPositive(l - 3);
        DivDiv(v, Bytes(l - 3), 256);
        assert 256 * Bytes(l - 3) == Bytes(l - 3) * 256;
      }
    }
  }

  lemma DivOne(v: nat)
    ensures Div(v, 1) == v
  {
  }

  lemma DivOfProduct(v: nat, p: nat)
    requires p > 0
    ensures Div(v * p, p) == v
  {
    DivMod(v, 0, p);
  }

  lemma Regroup(a: nat, b: nat, c: nat)
    ensures a * (b * c) == a * c * b
  {
  }

  lemma DivDiv(v: nat, p: nat, q: nat)
    requires p > 0 && q > 0
    ensures p * q > 0 && Div(Div(v, p), q) == Div(v, p * q)
  {
    hide Div;
    var x := Div(v, p);
    var y := Div(x, q);
    DivFacts(v, p);
    DivFacts(x, q);
    var r, s := Mod(v, p), Mod(x, q);
    MulMonotone(1, p, q);
    assert (y * q + s) * p == y * (p * q) + s * p;
    MulMonotone(s + 1, q, p);
    Both(s, 1, p);
    assert q * p == p * q;
    DivMod(y, s * p + r, p * q);
    assert Div(v, p * q) == y by { DivIs(v, p * q); }
  }

  lemma DivIs(v: nat, p: nat)
    requires p > 0
    ensures Div(v, p) == v / p
  {
  }

  /** Compact form never rounds up, and loses less than one unit. */
  lemma ExpandRoundsDown(v: nat, l: nat)
    requires IsBytes(v, l)
    ensures Expand(Compact(v, l)) <= v < Expand(Compact(v, l)) + Unit(v, l)
  {
    hide Expand, Compact, Div, Mod;
    ExpandCompact(v, l);
    DivFacts(v, Unit(v, l));
  }

  /** Rounding down to a multiple of `u` keeps every lower bound that is a multiple of `u`. */
  lemma RoundedStays(v: nat, u: nat, k: nat)
    requires u > 0 && v >= k * u
    ensures Div(v, u) * u >= k * u
  {
    hide Div;
    DivFacts(v, u);
    if Div(v, u) < k {
      MulMonotone(Div(v, u) + 1, k, u);
      assert false;
    }
  }

  /** The rounded number has as many bytes. */
  lemma SameLength(v: nat, l: nat)
    requires IsBytes(v, l)
    ensures IsBytes(Expand(Compact(v, l)), l)
  {
    hide Expand, Compact, Div, Mod, Bytes, Top;
    ExpandCompact(v, l);
    ExpandRoundsDown(v, l);
    BytesAdd(0, 0);
    if l > 0 {
      var u := Unit(v, l);
      if u == 1 {
        DivOne(v);
      } else {
        var k := if Top(v, l) >= SIGN then 2 else 3;
        BytesAdd(k - 1, l - k);
        RoundedStays(v, u, Bytes(k - 1));
      }
    }
  }

  /** Taking the compact form of the rounded number gives the same compact form. */
  lemma CompactIsIdempotent(v: nat, l: nat)
    requires IsBytes(v, l)
    ensures Compact(Expand(Compact(v, l)), l) == Compact(v, l)
  {
    hide Expand, Div, Mod, Bytes;
    var w := Expand(Compact(v, l));
    var c := Top(v, l);
    ExpandCompact(v, l);
    BytesAdd(0, 0);
    DivOne(v);
    if c < SIGN {
      if l > 3 {
        BytesPositive(l - 3);
        DivOfProduct(Div(v, Bytes(l - 3)), Bytes(l - 3));
      }
    } else if l == 3 {
      SignStays(v, 256);
      DivOfProduct(Div(v, 256), 256);
    } else if l > 3 {
      TopOfRounded(v, l);
    }
  }

  lemma SignStays(c: nat, u: nat)
    requires u == 256 && c >= SIGN
    ensures Div(c, u) * u >= SIGN
  {
    RoundedStays(c, u, 0x8000);
  }

  lemma TopOfRounded(v: nat, l: nat)
    requires l > 3 && Top(v, l) >= SIGN && Expand(Compact(v, l)) == Div(v, Bytes(l - 2)) * Bytes(l - 2)
    ensures Compact(Expand(Compact(v, l)), l) == Compact(v, l)
  {
    hide Expand, Div, Mod, Bytes;
    var p := Bytes(l - 3);
    var c := Top(v, l);
    BytesAdd(1, l - 3);
    BytesPositive(l - 3);
    DivDiv(v, p, 256);
    assert p * 256 == 256 * p;
    var d := Div(c, 256);
    assert Expand(Compact(v, l)) == d * (256 * p);
    assert d * (256 * p) == d * 256 * p;
    DivOfProduct(d * 256, p);
    SignStays(c, 256);
    DivOfProduct(d, 256);
  }

  // ---------------------------------------------------------------- the overflow flag

  lemma ModulusIsBytes()
    ensures Modulus() == Bytes(32)
  {
    WeightIsPow2(WIDTH);
  }

  /** The three comparisons of the source say exactly whether the number needs more than 256 bits. */
  lemma OverflowIsExact(n: nat)
    ensures var size := Div(n, SIZE);
            var word := if size <= 3 then Div(Mod(n, SIGN), Bytes(3 - size)) else Mod(n, SIGN);
            Expand(n) >= Modulus() <==>
            word != 0 && (size > 34 || (word > 0xff && size > 33) || (word > 0xffff && size > 32))
  {
    hide Bytes, Div, Weight;
    var size, word := Div(n, SIZE), Mod(n, SIGN);
    ModulusIsBytes();
    BytesAdd(0, 0);
    if size <= 3 {
      DivSmaller(word, Bytes(3 - size));
      BytesAdd(3, 29);
      MulMonotone(1, Bytes(29), SIZE);
      BytesPositive(29);
    } else if size > 34 {
      BytesAdd(32, size - 35);
      BytesAdd(size - 35, 32);
      BytesPositive(size - 35);
      BytesGrow(32, size - 3);
      if word != 0 {
        MulMonotone(1, word, Bytes(size - 3));
      }
    } else if size == 34 {
      BytesAdd(1, 31);
      Threshold(word, 256, Bytes(31));
    } else if size == 33 {
      BytesAdd(2, 30);
      Threshold(word, 0x1_0000, Bytes(30));
    } else {
      BytesAdd(3, size - 3);
      BytesGrow(size, 32);
      BytesPositive(size - 3);
      Threshold(word, SIZE, Bytes(size - 3));
    }
  }

  lemma DivSmaller(a: nat, d: nat)
    requires a < SIGN
    ensures d > 0 ==> Div(a, d) < SIGN
  {
    if d > 0 {
      DivFacts(a, d);
      MulMonotone(1, d, Div(a, d));
    }
  }

  lemma BytesGrow(i: nat, j: nat)
    requires i <= j
    ensures Bytes(i) <= Bytes(j)
  {
    Pow2Monotone(8 * i, 8 * j);
  }

  lemma Threshold(a: nat, b: nat, p: nat)
    ensures p > 0 ==> (a * p >= b * p <==> a >= b)
  {
    if a >= b {
      MulMonotone(b, a, p);
    } else {
      MulMonotone(a + 1, b, p);
      Both(a, 1, p);
    }
  }

  // ---------------------------------------------------------------- the conversions

  /** `SetCompact`: the number modulo 2^256, and flags that say exactly whether it is negative and whether
      it overflows. */
  method SetCompact(r: ArithUint256, nCompact: nat) returns (negative: bool, overflow: bool)
    requires r.Valid() && nCompact < LIMB
    modifies r.pn
    ensures r.Valid() && r.Val() == Expand(nCompact) % Modulus()
    ensures overflow <==> Expand(nCompact) >= Modulus()
    ensures negative <==> Expand(nCompact) != 0 && Mod(Div(nCompact, SIGN), 2) == 1
  {
    hide Div, Mod, Num, Weight, Pow2;
    var nSize, nWord := Div(nCompact, SIZE), Mod(nCompact, SIGN);
    OverflowIsExact(nCompact);
    ModulusIsBig();
    SmallWord(nWord);
    if nSize <= 3 {
      DivSmaller(nWord, Bytes(3 - nSize));
      nWord := Div(nWord, Pow2(8 * (3 - nSize)));
      r.SetLow64(nWord);
      DivMod(0, nWord, Modulus());
    } else {
      r.SetLow64(nWord);
      r.ShiftLeft(8 * (nSize - 3));
      if nWord != 0 {
        MulMonotone(1, nWord, Bytes(nSize - 3));
      }
    }
    negative := nWord != 0 && Mod(Div(nCompact, SIGN), 2) == 1;
    overflow := nWord != 0 && (nSize > 34 || (nWord > 0xff && nSize > 33) || (nWord > 0xffff && nSize > 32));
  }

  lemma SmallWord(w: nat)
    requires w < SIGN
    ensures w < LIMB * LIMB
  {
  }

  /** The length in bytes follows from the length in bits. */
  lemma BytesOfBits(v: nat, n: nat)
    requires IsBits(v, n) && n <= 256
    ensures IsBytes(v, (n + 7) / 8) && (n + 7) / 8 <= 32
  {
    hide Pow2;
    if n > 0 {
      var l := (n + 7) / 8;
      Pow2Monotone(n, 8 * l);
      Pow2Monotone(8 * (l - 1), n - 1);
    }
  }

  /** `GetCompact`; both its assertions hold. */
  method GetCompact(a: ArithUint256, fNegative: bool) returns (nCompact: nat, ghost l: nat)
    requires a.Valid()
    ensures l <= 32 && IsBytes(a.Val(), l)
    ensures nCompact == Compact(a.Val(), l) + if fNegative && Mod(Compact(a.Val(), l), SIGN) != 0 then SIGN else 0
    ensures nCompact < LIMB
  {
    hide Div, Num, Weight, Pow2;
    var bits := a.Bits();
    var nSize := (bits + 7) / 8;
    l := nSize;
    BytesOfBits(a.Val(), bits);
    TopBound(a.Val(), l);
    var c;
    if nSize <= 3 {
      TopFits(a.Val(), l);
      c := a.GetLow64();
      c := c * Pow2(8 * (3 - nSize));
    } else {
      var bn := new ArithUint256.Copy(a);
      bn.ShiftRight(8 * (nSize - 3));
      DivIs(a.Val(), Bytes(nSize - 3));
      c := bn.GetLow64();
    }
    assert c == Top(a.Val(), l);
    SignBit(c);
    if Mod(Div(c, SIGN), 2) == 1 {
      DivFacts(c, 256);
      c := Div(c, 256);
      nSize := nSize + 1;
    }
    assert c < SIGN;
    assert nSize < 256;
    CompactParts(c, nSize);
    nCompact := c + nSize * SIZE;
    if fNegative && Mod(nCompact, SIGN) != 0 {
      nCompact := nCompact + SIGN;
    }
  }

  lemma TopFits(v: nat, l: nat)
    requires IsBytes(v, l) && l <= 3
    ensures v < LIMB * LIMB
  {
    BytesAdd(0, 0);
    BytesGrow(l, 3);
  }

  lemma SignBit(c: nat)
    requires c < SIZE
    ensures Mod(Div(c, SIGN), 2) == 1 <==> c >= SIGN
  {
  }

  /** Compact form and back: the number rounded down to the precision of the form, neither negative nor
      too large. */
  method RoundTrip(a: ArithUint256) returns (r: ArithUint256, negative: bool, overflow: bool, ghost l: nat)
    requires a.Valid()
    ensures r.Valid() && IsBytes(a.Val(), l) && !negative && !overflow
    ensures r.Val() <= a.Val() < r.Val() + Unit(a.Val(), l)
    ensures r.Val() == Div(a.Val(), Unit(a.Val(), l)) * Unit(a.Val(), l)
  {
    hide Div, Mod, Num, Weight, Pow2, Expand, Compact, Unit, IsBytes;
    var n;
    n, l := GetCompact(a, false);
    r := new ArithUint256();
    negative, overflow := SetCompact(r, n);
    ExpandRoundsDown(a.Val(), l);
    ExpandCompact(a.Val(), l);
    NumBound(a.pn[..]);
    NoSign(a.Val(), l);
    DivMod(0, Expand(n), Modulus());
  }

  lemma NoSign(v: nat, l: nat)
    requires IsBytes(v, l)
    ensures Mod(Div(Compact(v, l), SIGN), 2) == 0
  {
    hide Bytes;
    TopBound(v, l);
    var c := Top(v, l);
    var (m, k) := if c >= SIGN then (Div(c, 256), l + 1) else (c, l);
    assert m < SIGN;
    assert Compact(v, l) == 2 * k * SIGN + m;
    DivMod(2 * k, m, SIGN);
  }

  // ---------------------------------------------------------------- block proof

  /** A target below the maximum divides 2^256 as the source computes it. */
  lemma ProofFormula(m: nat, t: nat)
    requires t + 1 < m
    ensures (m - 1 - t) / (t + 1) + 1 == m / (t + 1)
    ensures t > 0 ==> m / (t + 1) < m
  {
    var d := t + 1;
    var q, r := (m - d) / d, (m - d) % d;
    assert m - d == q * d + r;
    Both(q, 1, d);
    DivMod(q + 1, r, d);
    if t > 0 {
      MulMonotone(2, d, q + 1);
      Commute(d, q + 1);
    }
  }

  /** `GetBlockProof`: the expected number of hashes, 2^256 divided by one more than the target, rounded
      down; nothing for a target that is negative, zero or too large. */
  method GetBlockProof(nBits: nat) returns (r: ArithUint256)
    requires nBits < LIMB
    ensures r.Valid()
    ensures var t := Expand(nBits);
            r.Val() == if t == 0 || t >= Modulus() || Mod(Div(nBits, SIGN), 2) == 1 then 0 else Modulus() / (t + 1)
  {
    hide Num, Weight, Expand, Div, Mod;
    var target := new ArithUint256();
    var negative, overflow := SetCompact(target, nBits);
    ghost var t := Expand(nBits);
    if !overflow {
      DivMod(0, t, Modulus());
    }
    var zero := new ArithUint256();
    var c := target.CompareTo(zero);
    if negative || overflow || c == 0 {
      return zero;
    }
    TargetBelow(nBits);
    r := ProofOf(target, t);
  }

  /** `(~target / (target + 1)) + 1`. */
  method ProofOf(target: ArithUint256, ghost t: nat) returns (r: ArithUint256)
    requires target.Valid() && target.Val() == t > 0 && t + 1 < Modulus()
    modifies target.pn
    ensures r.Valid() && r.Val() == Modulus() / (t + 1)
  {
    hide Num, Weight, Modulus;
    var one := new ArithUint256();
    one.SetLow64(1);
    r := target.Complement();
    target.Add(one);
    DivMod(0, t + 1, Modulus());
    assert target.Val() == t + 1;
    var ok := r.Divide(target);
    ProofFormula(Modulus(), t);
    r.Add(one);
    DivMod(0, Modulus() / (t + 1), Modulus());
  }

  /** No compact form stands for 2^256 - 1. */
  lemma TargetBelow(n: nat)
    requires Expand(n) < Modulus()
    ensures Expand(n) + 1 < Modulus()
  {
    hide Div, Mod, Weight, Bytes;
    var size, word := Div(n, SIZE), Mod(n, SIGN);
    ModulusIsBytes();
    BytesAdd(1, 31);
    if size <= 3 {
      DivSmaller(word, Bytes(3 - size));
      BytesGrow(3, 32);
    } else {
      BytesAdd(1, size - 4);
      Regroup(word, 256, Bytes(size - 4));
      var x, y := word * Bytes(size - 4), Bytes(31);
      assert Expand(n) == 256 * x && Modulus() == 256 * y;
    }
  }
}
