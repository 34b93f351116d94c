/** `CPartialMerkleTree` (src/merkleblock.cpp, src/merkleblock.h): building, serialising and extracting. */
module MerkleBlock {
  import opened Common
  import opened ByteBits
  import opened MerkleTree
  import opened PartialMerkle
  import opened PartialTrees
  import opened MerkleSize

  // ---------------------------------------------------------------- bits in bytes

  /** Or-ing in the bit for place `p` changes no other place. */
  lemma OrPlace(bytes: seq<bv8>, p: nat, b: bool, q: nat)
    requires p / 8 < |bytes| && q / 8 < |bytes|
    ensures Bit(bytes[p / 8 := OrBit(bytes[p / 8], p % 8, b)][q / 8], q % 8) == (Bit(bytes[q / 8], q % 8) || (b && q == p))
  {
    hide Bit, OrBit, Mask;
    OrBitSets(bytes[p / 8], p % 8, b, q % 8);
  }

  /** Flag bits packed least significant first, padded with zeros. */
  ghost predicate Packs(bytes: seq<bv8>, bits: seq<bool>) {
    && |bytes| == (|bits| + 7) / 8
    && forall p | 0 <= p < 8 * |bytes| :: Bit(bytes[p / 8], p % 8) == (p < |bits| && bits[p])
  }

  method PackBits(bits: seq<bool>) returns (bytes: seq<bv8>)
    ensures Packs(bytes, bits)
  {
    hide Bit, OrBit, Mask;
    var n := (|bits| + 7) / 8;
    var buffer := new bv8[n](_ => 0);
    Constants();
    for p := 0 to |bits|
      invariant forall q | 0 <= q < 8 * n :: Bit(buffer[..][q / 8], q % 8) == (q < p && bits[q])
    {
      ghost var was := buffer[..];
      buffer[p / 8] := OrBit(buffer[p / 8], p % 8, bits[p]);
      assert buffer[..] == was[p / 8 := OrBit(was[p / 8], p % 8, bits[p])];
      forall q | 0 <= q < 8 * n ensures Bit(buffer[..][q / 8], q % 8) == (q < p + 1 && bits[q]) {
        OrPlace(was, p, bits[p], q);
      }
    }
    bytes := buffer[..];
  }

  method UnpackBits(bytes: seq<bv8>) returns (bits: seq<bool>)
    ensures |bits| == 8 * |bytes| && forall p | 0 <= p < |bits| :: bits[p] == Bit(bytes[p / 8], p % 8)
  {
    bits := [];
    while |bits| < 8 * |bytes|
      invariant |bits| <= 8 * |bytes| && forall p | 0 <= p < |bits| :: bits[p] == Bit(bytes[p / 8], p % 8)
    {
      bits := bits + [Bit(bytes[|bits| / 8], |bits| % 8)];
    }
  }

  // ---------------------------------------------------------------- the tree

  class PartialMerkleTree {
    var nTransactions: nat
    var vBits: seq<bool>
    var vHash: seq<Hash>
    var fBad: bool

    /** The encoding of the matched transactions of a block. */
    constructor (h: Combiner, txids: seq<Hash>, match_: seq<bool>)
      requires |txids| == |match_| > 0
      ensures nTransactions == |txids| && !fBad
      ensures exists height :: IsHeight(|txids|, height) && Width(|txids|, height) == 1 &&
                Code(vBits, vHash) == Encode(h, txids, match_, height, 0)
    {
      nTransactions, fBad, vBits, vHash := |txids|, false, [], [];
      new;
      var height := TreeHeight(|txids|);
      LastNode(match_, height);
      TraverseAndBuild(h, height, 0, txids, match_);
    }

    /** Reading a serialised tree. */
    constructor Unserialize(n: nat, hashes: seq<Hash>, bytes: seq<bv8>)
      ensures nTransactions == n && vHash == hashes && !fBad
      ensures |vBits| == 8 * |bytes| && forall p | 0 <= p < |vBits| :: vBits[p] == Bit(bytes[p / 8], p % 8)
    {
      var bits := UnpackBits(bytes);
      nTransactions, vHash, vBits, fBad := n, hashes, bits, false;
    }

    method Serialize() returns (n: nat, hashes: seq<Hash>, bytes: seq<bv8>)
      ensures n == nTransactions && hashes == vHash && Packs(bytes, vBits)
    {
      n, hashes := nTransactions, vHash;
      bytes := PackBits(vBits);
    }

    method TraverseAndBuild(h: Combiner, height: nat, pos: nat, txids: seq<Hash>, match_: seq<bool>)
      requires nTransactions == |txids| == |match_| && pos < Width(|txids|, height)
      modifies this`vBits, this`vHash
      ensures var e := Encode(h, txids, match_, height, pos);
              vBits == old(vBits) + e.bits && vHash == old(vHash) + e.hashes
      decreases height
    {
      hide Width, Encode, Flag;
      var flag := ParentOfMatch(height, pos, match_);
      vBits := vBits + [flag];
      if height == 0 || !flag {
        EncodeStop(h, txids, match_, height, pos);
        vHash := vHash + [NodeHash(h, txids, height, pos)];
      } else {
        ghost var l, r := EncodeNode(h, txids, match_, height, pos);
        assert old(vBits) + [flag] + l.bits + r.bits == old(vBits) + ([flag] + l.bits + r.bits);
        assert old(vHash) + l.hashes + r.hashes == old(vHash) + (l.hashes + r.hashes);
        TraverseAndBuild(h, height - 1, 2 * pos, txids, match_);
        if 2 * pos + 1 < Width(nTransactions, height - 1) {
          TraverseAndBuild(h, height - 1, 2 * pos + 1, txids, match_);
        } else {
          assert old(vBits) + [flag] + l.bits + r.bits == old(vBits) + [flag] + l.bits;
          assert old(vHash) + l.hashes + r.hashes == old(vHash) + l.hashes;
        }
      }
    }

    /** The loop that finds whether a leaf below a node is matched. */
    method ParentOfMatch(height: nat, pos: nat, match_: seq<bool>) returns (flag: bool)
      requires nTransactions == |match_| && pos < Width(|match_|, height)
      ensures flag == Flag(match_, height, pos)
    {
      hide Width;
      flag := false;
      var p, end := First(height, pos), First(height, pos + 1);
      HasLeaf(nTransactions, height, pos);
      while p < end && p < nTransactions
        invariant First(height, pos) <= p <= End(nTransactions, height, pos)
        invariant flag <==> AnyMatch(match_, First(height, pos), p)
      {
        flag := flag || match_[p];
        p := p + 1;
      }
    }

    method TraverseAndExtract(h: Combiner, height: nat, pos: nat, nBits: nat, nHash: nat, vMatch: seq<Hash>, vnIndex: seq<nat>)
      returns (hash: Hash, nBitsUsed: nat, nHashUsed: nat, matches: seq<Hash>, indices: seq<nat>)
      modifies this`fBad
      ensures var s := Decode(h, nTransactions, Code(vBits, vHash), height, pos, nBits, nHash);
              && hash == s.hash && nBitsUsed == s.bitsUsed && nHashUsed == s.hashUsed && fBad == (old(fBad) || s.bad)
              && matches == vMatch + Ids(s.found) && indices == vnIndex + Places(s.found)
      decreases height
    {
      hide Width, Decode;
      ghost var c := Code(vBits, vHash);
      nBitsUsed, nHashUsed, matches, indices := nBits, nHash, vMatch, vnIndex;
      if nBitsUsed >= |vBits| || height == 0 || !vBits[nBitsUsed] {
        DecodeStop(h, nTransactions, c, height, pos, nBits, nHash);
      }
      if nBitsUsed >= |vBits| {
        fBad, hash := true, NULL;
        return;
      }
      var flag := vBits[nBitsUsed];
      nBitsUsed := nBitsUsed + 1;
      if height == 0 || !flag {
        if nHashUsed >= |vHash| {
          fBad, hash := true, NULL;
          return;
        }
        hash := vHash[nHashUsed];
        nHashUsed := nHashUsed + 1;
        if height == 0 && flag {
          matches, indices := matches + [hash], indices + [pos];
        }
      } else {
        var left, right;
        left, nBitsUsed, nHashUsed, matches, indices :=
          TraverseAndExtract(h, height - 1, 2 * pos, nBitsUsed, nHashUsed, matches, indices);
        ghost var l := Decode(h, nTransactions, c, height - 1, 2 * pos, nBits + 1, nHash);
        ghost var r := Decode(h, nTransactions, c, height - 1, 2 * pos + 1, l.bitsUsed, l.hashUsed);
        DecodeNode(h, nTransactions, c, height, pos, nBits, nHash, l, r);
        if 2 * pos + 1 < Width(nTransactions, height - 1) {
          right, nBitsUsed, nHashUsed, matches, indices :=
            TraverseAndExtract(h, height - 1, 2 * pos + 1, nBitsUsed, nHashUsed, matches, indices);
          if right == left {
            fBad := true;
          }
          IdsConcat(l.found, r.found);
        } else {
          right := left;
        }
        hash := h(left, right);
      }
    }

    /** `ExtractMatches`: the root, or the null hash when the data is not acceptable. The indices are
        appended to what the caller passed in. */
    method ExtractMatches(h: Combiner, vnIndex: seq<nat>) returns (root: Hash, matches: seq<Hash>, indices: seq<nat>)
      modifies this`fBad
      ensures root != NULL ==> exists height ::
                var c := Code(vBits, vHash);
                var s := Decode(h, nTransactions, c, height, 0, 0, 0);
                && IsHeight(nTransactions, height) && Accepts(nTransactions, c, s) && !old(fBad)
                && root == s.hash && matches == Ids(s.found) && indices == vnIndex + Places(s.found)
      ensures forall height | IsHeight(nTransactions, height) ::
                var c := Code(vBits, vHash);
                var s := Decode(h, nTransactions, c, height, 0, 0, 0);
                Accepts(nTransactions, c, s) && !old(fBad) ==>
                root == s.hash && matches == Ids(s.found) && indices == vnIndex + Places(s.found)
      ensures root != NULL ==> exists height, t ::
                && IsHeight(nTransactions, height) && Holding(h, nTransactions, height, Code(vBits, vHash), t)
                && root == Root(h, t) && matches == Ids(Found(t, 0)) && indices == vnIndex + Places(Found(t, 0))
      ensures nTransactions == 0 || nTransactions > 33333 || |vHash| > nTransactions || |vBits| < |vHash| ==>
                root == NULL && matches == [] && indices == vnIndex
      ensures old(fBad) ==> fBad && root == NULL
    {
      hide Width, Decode, Holding;
      root, matches, indices := NULL, [], vnIndex;
      if nTransactions == 0 || nTransactions > MAX_TRANSACTIONS || |vHash| > nTransactions || |vBits| < |vHash| {
        return;
      }
      var height := TreeHeight(nTransactions);
      OneHeight(nTransactions, height);
      var hash, nBitsUsed, nHashUsed;
      hash, nBitsUsed, nHashUsed, matches, indices := TraverseAndExtract(h, height, 0, 0, 0, [], vnIndex);
      if fBad || (nBitsUsed + 7) / 8 != (|vBits| + 7) / 8 || nHashUsed != |vHash| {
        return;
      }
      root := hash;
      AcceptedExactly(h, nTransactions, height, Code(vBits, vHash));
    }
  }

  lemma OneHeight(n: nat, height: nat)
    requires IsHeight(n, height)
    ensures forall k: nat | IsHeight(n, k) :: k == height
  {
    hide Width;
  }

  /** Reading a node that is not descended into. */
  lemma DecodeStop(h: Combiner, n: nat, c: Code, height: nat, pos: nat, i: nat, j: nat)
    requires i >= |c.bits| || height == 0 || !c.bits[i]
    ensures Decode(h, n, c, height, pos, i, j) ==
            if i >= |c.bits| then Step(NULL, i, j, [], true)
            else if j >= |c.hashes| then Step(NULL, i + 1, j, [], true)
            else Step(c.hashes[j], i + 1, j + 1, if height == 0 && c.bits[i] then [(c.hashes[j], pos)] else [], false)
  {
  }

  // ---------------------------------------------------------------- the two directions

  /** Soundness: whatever bits and hashes were received, if they read as the root of `txids` then every
      reported transaction is where it is said to be, in increasing order, unless the hashes read and
      the true ones exhibit a collision. */
  lemma ExtractIsSound(h: Combiner, txids: seq<Hash>, c: Code, height: nat)
    requires 0 < |txids| && IsHeight(|txids|, height)
    ensures Width(|txids|, height) == 1
    ensures var s := Decode(h, |txids|, c, height, 0, 0, 0);
            s.hash == NodeHash(h, txids, height, 0) ==>
            ReadCollides(h, txids, c, height, 0, 0, 0) || (AllTrue(txids, s.found) && Increasing(s.found, 0, |txids|))
  {
    hide Width, Decode, NodeHash, ReadCollides;
    var any := seq(|txids|, _ => false);
    LastNode(any, height);
    FirstZero(height);
    IndicesIncrease(h, |txids|, c, height, 0, 0, 0);
    if !ReadCollides(h, txids, c, height, 0, 0, 0) && Decode(h, |txids|, c, height, 0, 0, 0).hash == NodeHash(h, txids, height, 0) {
      DecodeIsSound(h, txids, c, height, 0, 0, 0);
    }
  }

  /** Completeness: an encoding, padded to whole bytes, is accepted and gives back the root and the
      matched transactions. */
  lemma ExtractIsComplete(h: Combiner, txids: seq<Hash>, match_: seq<bool>, height: nat, c: Code, bits: seq<bool>)
    requires !TreeCollides(h, txids) && NoDuplicates(txids) && 0 < |txids| == |match_| <= MAX_TRANSACTIONS
    requires IsHeight(|txids|, height) && Width(|txids|, height) == 1 && c == Encode(h, txids, match_, height, 0)
    requires c.bits <= bits && (|bits| + 7) / 8 == (|c.bits| + 7) / 8
    ensures var s := Decode(h, |txids|, Code(bits, c.hashes), height, 0, 0, 0);
            Accepts(|txids|, Code(bits, c.hashes), s) && s.hash == NodeHash(h, txids, height, 0) &&
            s.found == Matched(txids, match_, 0, |txids|)
  {
    hide Width, Encode, Decode, NodeHash, TreeCollides, NoDuplicates, First;
    LastNode(match_, height);
    FirstZero(height);
    assert Holds(Code(bits, c.hashes), c, 0, 0);
    DecodeEncode(h, txids, match_, Code(bits, c.hashes), height, 0, 0, 0);
    HashesByLeaves(h, txids, match_, height, 0);
    BitBound(h, txids, match_, height);
  }

  /** Data that is accepted is not accepted with more hashes or more bytes of bits behind it. */
  method Appended(h: Combiner, n: nat, hashes: seq<Hash>, bytes: seq<bv8>, moreHashes: seq<Hash>, moreBytes: seq<bv8>)
    returns (root: Hash, root': Hash)
    ensures root != NULL && (moreHashes != [] || moreBytes != []) ==> root' == NULL
  {
    hide Width, Decode, Holding, Bit, Accepts;
    var matches, indices;
    var tree := new PartialMerkleTree.Unserialize(n, hashes, bytes);
    var tree' := new PartialMerkleTree.Unserialize(n, hashes + moreHashes, bytes + moreBytes);
    root, matches, indices := tree.ExtractMatches(h, []);
    root', matches, indices := tree'.ExtractMatches(h, []);
    if root != NULL && root' != NULL {
      ghost var c, c' := Code(tree.vBits, tree.vHash), Code(tree'.vBits, tree'.vHash);
      ghost var height :| IsHeight(n, height) && Accepts(n, c, Decode(h, n, c, height, 0, 0, 0));
      OneHeight(n, height);
      UsedUp(h, n, height, c, c');
    }
  }

  /** Unpacking packed bits gives the same bits and at most seven more. */
  lemma Padding(bytes: seq<bv8>, bits: seq<bool>, padded: seq<bool>)
    requires Packs(bytes, bits)
    requires |padded| == 8 * |bytes| && forall p | 0 <= p < |padded| :: padded[p] == Bit(bytes[p / 8], p % 8)
    ensures bits <= padded && (|padded| + 7) / 8 == (|bits| + 7) / 8
  {
  }

  /** Build, serialise, read back and extract. */
  method Relay(h: Combiner, txids: seq<Hash>, match_: seq<bool>) returns (root: Hash, matches: seq<Hash>, indices: seq<nat>)
    requires 0 < |txids| == |match_| <= MAX_TRANSACTIONS && NoDuplicates(txids)
    ensures !TreeCollides(h, txids) ==> exists height ::
              && IsHeight(|txids|, height) && Width(|txids|, height) == 1 && root == NodeHash(h, txids, height, 0)
              && matches == Ids(Matched(txids, match_, 0, |txids|)) && indices == Places(Matched(txids, match_, 0, |txids|))
  {
    hide Width, Encode, Decode, NodeHash, TreeCollides, NoDuplicates, Matched;
    var tree := new PartialMerkleTree(h, txids, match_);
    ghost var height :| IsHeight(|txids|, height) && Width(|txids|, height) == 1 &&
      Code(tree.vBits, tree.vHash) == Encode(h, txids, match_, height, 0);
    var n, hashes, bytes := tree.Serialize();
    var copy := new PartialMerkleTree.Unserialize(n, hashes, bytes);
    Padding(bytes, tree.vBits, copy.vBits);
    if !TreeCollides(h, txids) {
      ExtractIsComplete(h, txids, match_, height, Code(tree.vBits, tree.vHash), copy.vBits);
    }
    root, matches, indices := copy.ExtractMatches(h, []);
    assert IsHeight(copy.nTransactions, height);
    ghost var places := Places(Matched(txids, match_, 0, |txids|));
    assert [] + places == places;
  }

  function Ids(found: seq<(Hash, nat)>): seq<Hash> {
    seq(|found|, k requires 0 <= k < |found| => found[k].0)
  }

  function Places(found: seq<(Hash, nat)>): seq<nat> {
    seq(|found|, k requires 0 <= k < |found| => found[k].1)
  }

  lemma IdsConcat(a: seq<(Hash, nat)>, b: seq<(Hash, nat)>)
    ensures Ids(a + b) == Ids(a) + Ids(b) && Places(a + b) == Places(a) + Places(b)
  {
  }
}
