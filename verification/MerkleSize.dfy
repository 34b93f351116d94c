/** How large the encoding of a partial Merkle tree is, against the guarantees documented in
    src/merkleblock.h. */
module MerkleSize {
  import opened Common
  import opened MerkleTree
  import opened PartialMerkle

  // ---------------------------------------------------------------- hashes

  /** No more hashes than leaves, and as many when every leaf is matched. */
  lemma {:induction false} HashesByLeaves(h: Combiner, txids: seq<Hash>, match_: seq<bool>, height: nat, pos: nat)
    requires |txids| == |match_| && pos < Width(|txids|, height)
    ensures First(height, pos) < End(|txids|, height, pos)
    ensures 1 <= |Encode(h, txids, match_, height, pos).hashes| <= End(|txids|, height, pos) - First(height, pos)
    ensures (forall p | 0 <= p < |match_| :: match_[p]) ==>
              |Encode(h, txids, match_, height, pos).hashes| == End(|txids|, height, pos) - First(height, pos)
    decreases height
  {
    hide Width, First, End, Flag;
    var n := |txids|;
    HasLeaf(n, height, pos);
    if height == 0 {
      Leaf(n, pos);
    } else {
      FlagWhenAll(match_, height, pos);
      if Flag(match_, height, pos) {
        Children(n, height, pos);
        var l, r := EncodeNode(h, txids, match_, height, pos);
        HashesByLeaves(h, txids, match_, height - 1, 2 * pos);
        if 2 * pos + 1 < Width(n, height - 1) {
          HashesByLeaves(h, txids, match_, height - 1, 2 * pos + 1);
        }
      }
    }
  }

  lemma HasLeaf(n: nat, height: nat, pos: nat)
    requires pos < Width(n, height)
    ensures First(height, pos) < End(n, height, pos) <= n
  {
    InTree(n, height, pos);
    FirstStep(height, pos);
  }

  lemma FlagWhenAll(match_: seq<bool>, height: nat, pos: nat)
    requires pos < Width(|match_|, height)
    ensures (forall p | 0 <= p < |match_| :: match_[p]) ==> Flag(match_, height, pos)
  {
    HasLeaf(|match_|, height, pos);
    if forall p | 0 <= p < |match_| :: match_[p] {
      assert match_[First(height, pos)];
    }
  }

  /** At most one hash per level and match, and one more. */
  lemma {:induction false} HashesByMatches(h: Combiner, txids: seq<Hash>, match_: seq<bool>, height: nat, pos: nat)
    requires |txids| == |match_| && pos < Width(|txids|, height)
    ensures |Encode(h, txids, match_, height, pos).hashes| <= 1 + |Below(txids, match_, height, pos)| * height
    decreases height
  {
    hide Width, Below, Flag;
    var n := |txids|;
    FlagIsBelow(txids, match_, height, pos);
    if height > 0 && Flag(match_, height, pos) {
      Children(n, height, pos);
      BelowChildren(txids, match_, height, pos);
      var l, r := EncodeNode(h, txids, match_, height, pos);
      var a, m := |Below(txids, match_, height - 1, 2 * pos)|, |Below(txids, match_, height, pos)|;
      HashesByMatches(h, txids, match_, height - 1, 2 * pos);
      if 2 * pos + 1 < Width(n, height - 1) {
        HashesByMatches(h, txids, match_, height - 1, 2 * pos + 1);
        Spread(a, m - a, height);
      } else {
        Spread(a, 0, height);
      }
    }
  }

  lemma Spread(a: nat, b: nat, height: nat)
    requires height > 0 && a + b > 0
    ensures (1 + a * (height - 1)) + (1 + b * (height - 1)) <= 1 + (a + b) * height
    ensures a * (height - 1) <= a * height
  {
    assert a * (height - 1) + b * (height - 1) == (a + b) * (height - 1);
    assert (a + b) * height == (a + b) * (height - 1) + (a + b);
  }

  // ---------------------------------------------------------------- bits

  /** Levels whose last node has one child and is descended into. */
  ghost function OddLevels(match_: seq<bool>, height: nat): nat {
    if height == 0 then 0
    else
      OddLevels(match_, height - 1) +
      if OddLevel(match_, height) then 1 else 0
  }

  /** The level below has an odd number of nodes, and a leaf below the last node of this level is matched. */
  ghost predicate OddLevel(match_: seq<bool>, height: nat)
    requires height > 0
  {
    var n := |match_|;
    && Width(n, height) > 0 && Width(n, height - 1) % 2 == 1
    && exists p | First(height, Width(n, height) - 1) <= p < n :: match_[p]
  }

  lemma LastNode(match_: seq<bool>, height: nat)
    requires |match_| > 0
    ensures Width(|match_|, height) > 0
    ensures End(|match_|, height, Width(|match_|, height) - 1) == |match_|
    ensures height > 0 ==> First(height, Width(|match_|, height) - 1) <= First(height - 1, Width(|match_|, height - 1) - 1)
  {
    hide Width, First, Pow2;
    var n := |match_|;
    InTree(n, height, 0);
    assert First(height, 0) == 0 by { FirstZero(height); }
    var w := Width(n, height);
    InTree(n, height, w);
    if height > 0 {
      WidthHalves(n, height);
      Children(n, height, w - 1);
      FirstStep(height - 1, 2 * (w - 1));
    }
  }

  lemma FirstZero(height: nat)
    ensures First(height, 0) == 0
  {
  }

  /** Without a match below the last node there is none below the last nodes of lower levels. */
  lemma {:induction false} NoOddLevels(match_: seq<bool>, height: nat)
    requires |match_| > 0 && Width(|match_|, height) > 0 && !Flag(match_, height, Width(|match_|, height) - 1)
    ensures OddLevels(match_, height) == 0
  {
    hide Width, First, End;
    if height > 0 {
      LastNode(match_, height);
      LastNode(match_, height - 1);
      NoOddLevels(match_, height - 1);
    }
  }

  /** The exact number of bits below a node. */
  lemma {:induction false} BitsExact(h: Combiner, txids: seq<Hash>, match_: seq<bool>, height: nat, pos: nat)
    requires |txids| == |match_| && pos < Width(|txids|, height)
    ensures |Encode(h, txids, match_, height, pos).bits| ==
            2 * |Encode(h, txids, match_, height, pos).hashes| - 1 +
            if pos == Width(|txids|, height) - 1 then OddLevels(match_, height) else 0
    decreases height
  {
    hide Width, First, End, Flag, OddLevel;
    var n := |txids|;
    HasLeaf(n, height, pos);
    var last := Width(n, height) - 1;
    if height == 0 || !Flag(match_, height, pos) {
      if pos == last && height > 0 {
        NoOddLevels(match_, height);
      }
    } else {
      var l, r := EncodeNode(h, txids, match_, height, pos);
      WidthHalves(n, height);
      BitsExact(h, txids, match_, height - 1, 2 * pos);
      if 2 * pos + 1 < Width(n, height - 1) {
        BitsExact(h, txids, match_, height - 1, 2 * pos + 1);
        OddOnlyWhenSingle(match_, height);
      } else {
        OddWhenSingle(match_, height);
      }
    }
  }

  lemma OddOnlyWhenSingle(match_: seq<bool>, height: nat)
    requires height > 0 && |match_| > 0
    ensures Width(|match_|, height - 1) % 2 == 0 ==> OddLevels(match_, height) == OddLevels(match_, height - 1)
  {
  }

  lemma OddWhenSingle(match_: seq<bool>, height: nat)
    requires height > 0 && |match_| > 0 && Width(|match_|, height) > 0 && Flag(match_, height, Width(|match_|, height) - 1)
    ensures Width(|match_|, height - 1) % 2 == 1 ==> OddLevels(match_, height) == OddLevels(match_, height - 1) + 1
  {
    LastNode(match_, height);
  }

  /** The documented bound of 2N-1 bits for N hashes holds exactly when no level has a matched last node
      with a single child. */
  lemma BitBound(h: Combiner, txids: seq<Hash>, match_: seq<bool>, height: nat)
    requires |txids| == |match_| > 0 && IsHeight(|txids|, height)
    ensures Width(|txids|, height) == 1
    ensures var c := Encode(h, txids, match_, height, 0);
            && |c.bits| == 2 * |c.hashes| - 1 + OddLevels(match_, height)
            && (|c.bits| <= 2 * |c.hashes| - 1 <==> forall k | 1 <= k <= height :: !OddLevel(match_, k))
  {
    LastNode(match_, height);
    BitsExact(h, txids, match_, height, 0);
    NoneOdd(match_, height);
  }

  lemma {:induction false} NoneOdd(match_: seq<bool>, height: nat)
    ensures OddLevels(match_, height) == 0 <==> forall k | 1 <= k <= height :: !OddLevel(match_, k)
    ensures OddLevels(match_, height) <= height
  {
    hide OddLevel;
    if height > 0 {
      NoneOdd(match_, height - 1);
    }
  }

  /** With three transactions of which the last is matched, two hashes come with four bits. */
  lemma BitBoundFails(h: Combiner, a: Hash, b: Hash, c: Hash)
    ensures IsHeight(3, 2)
    ensures var e := Encode(h, [a, b, c], [false, false, true], 2, 0);
            |e.hashes| == 2 && |e.bits| == 4
  {
    hide Width, Flag, Encode;
    var txids, match_ := [a, b, c], [false, false, true];
    LastOfThree();
    var l, r := EncodeNode(h, txids, match_, 2, 0);
    var x, y := EncodeNode(h, txids, match_, 1, 1);
    EncodeStop(h, txids, match_, 1, 0);
    EncodeStop(h, txids, match_, 0, 2);
  }

  lemma LastOfThree()
    ensures Width(3, 0) == 3 && Width(3, 1) == 2 && Width(3, 2) == 1
    ensures var match_ := [false, false, true]; Flag(match_, 2, 0) && !Flag(match_, 1, 0) && Flag(match_, 1, 1)
  {
    assert Pow2(1) == 2 && Pow2(2) == 4;
    assert [false, false, true][2];
  }

  lemma EncodeStop(h: Combiner, txids: seq<Hash>, match_: seq<bool>, height: nat, pos: nat)
    requires |txids| == |match_| && pos < Width(|txids|, height) && (height == 0 || !Flag(match_, height, pos))
    ensures Encode(h, txids, match_, height, pos) == Code([Flag(match_, height, pos)], [NodeHash(h, txids, height, pos)])
  {
  }

  // ---------------------------------------------------------------- bytes

  /** The length of the variable-length integer before a vector. */
  function CompactSize(k: nat): nat {
    if k < 253 then 1 else if k <= 0xffff then 3 else if k <= 0xffff_ffff then 5 else 9
  }

  function SerializedSize(c: Code): nat {
    4 + CompactSize(|c.hashes|) + 32 * |c.hashes| + CompactSize(Bytes(|c.bits|)) + Bytes(|c.bits|)
  }

  /** The documented guarantee of 10 + ceil(32.25 N) bytes, for every number of transactions that
      extraction accepts, holds exactly when the flag bytes are few or fit in N/4. */
  lemma SizeGuarantee(h: Combiner, txids: seq<Hash>, match_: seq<bool>, height: nat)
    requires 0 < |txids| == |match_| <= MAX_TRANSACTIONS && IsHeight(|txids|, height)
    ensures Width(|txids|, height) == 1
    ensures |Encode(h, txids, match_, height, 0).hashes| >= 1
    ensures var c := Encode(h, txids, match_, height, 0);
            var flagBytes := Bytes(2 * |c.hashes| - 1 + OddLevels(match_, height));
            SerializedSize(c) <= 10 + (129 * |c.hashes| + 3) / 4 <==> flagBytes <= 252 || flagBytes <= (|c.hashes| + 3) / 4
  {
    hide OddLevels, Encode, Width, IsHeight;
    BitBound(h, txids, match_, height);
    NoneOdd(match_, height);
    LowTrees(|txids|, height);
    HashesByLeaves(h, txids, match_, height, 0);
    var c := Encode(h, txids, match_, height, 0);
    SizeArithmetic(|c.hashes|, OddLevels(match_, height));
  }

  lemma LowTrees(n: nat, height: nat)
    requires n <= MAX_TRANSACTIONS && IsHeight(n, height)
    ensures height <= 16
  {
    hide Pow2;
    if height > 16 {
      assert Width(n, 16) > 1;
      Pow2Of16();
      assert false;
    }
  }

  lemma Pow2Of16()
    ensures Pow2(16) == 65536
  {
    assert Pow2(4) == 16;
    assert Pow2(8) == 256;
    assert Pow2(12) == 4096;
  }

  lemma SizeArithmetic(hashes: nat, odd: nat)
    requires 1 <= hashes <= MAX_TRANSACTIONS && odd <= 16
    ensures var b := Bytes(2 * hashes - 1 + odd);
            4 + CompactSize(hashes) + 32 * hashes + CompactSize(b) + b <= 10 + (129 * hashes + 3) / 4 <==>
            b <= 252 || b <= (hashes + 3) / 4
  {
  }

  /** With 1025 transactions, all matched, the guarantee fails by one byte. */
  lemma SizeGuaranteeFails(h: Combiner, txids: seq<Hash>, match_: seq<bool>)
    requires |txids| == |match_| == 1025 && forall p | 0 <= p < 1025 :: match_[p]
    ensures IsHeight(1025, 11)
    ensures var c := Encode(h, txids, match_, 11, 0);
            SerializedSize(c) == 10 + (129 * |c.hashes| + 3) / 4 + 1
  {
    hide Width, First, End, Encode, IsHeight, OddLevels, OddLevel;
    Widths1025();
    BitBound(h, txids, match_, 11);
    HashesByLeaves(h, txids, match_, 11, 0);
    FirstZero(11);
    LastNode(match_, 11);
    OddLevels1025(match_);
  }

  lemma Widths1025()
    ensures IsHeight(1025, 11) && Width(1025, 11) == 1
    ensures forall k: nat | k < 10 :: Width(1025, k) % 2 == 1
    ensures Width(1025, 10) == 2
  {
    hide Width;
    assert Width(1025, 0) == 1025 by { Leaf(1025, 0); }
    WidthHalves(1025, 1);
    WidthHalves(1025, 2);
    WidthHalves(1025, 3);
    WidthHalves(1025, 4);
    WidthHalves(1025, 5);
    WidthHalves(1025, 6);
    WidthHalves(1025, 7);
    WidthHalves(1025, 8);
    WidthHalves(1025, 9);
    WidthHalves(1025, 10);
    WidthHalves(1025, 11);
  }

  lemma OddLevels1025(match_: seq<bool>)
    requires |match_| == 1025 && forall p | 0 <= p < 1025 :: match_[p]
    ensures OddLevels(match_, 11) == 10
  {
    hide OddLevel, Width;
    Widths1025();
    AllOdd(match_, 10);
    assert !OddLevel(match_, 11) by { EvenLevel(match_, 11); }
  }

  lemma EvenLevel(match_: seq<bool>, height: nat)
    requires height > 0 && Width(|match_|, height - 1) % 2 == 0
    ensures !OddLevel(match_, height)
  {
  }

  lemma {:induction false} AllOdd(match_: seq<bool>, height: nat)
    requires |match_| > 0 && (forall p | 0 <= p < |match_| :: match_[p])
    requires forall k: nat | k < height :: Width(|match_|, k) % 2 == 1
    ensures OddLevels(match_, height) == height
  {
    hide Width, First;
    if height > 0 {
      AllOdd(match_, height - 1);
      LastNode(match_, height);
      InTree(|match_|, height, Width(|match_|, height) - 1);
      assert match_[First(height, Width(|match_|, height) - 1)];
    }
  }
}
