/** Partial Merkle trees (src/merkleblock.cpp, src/merkleblock.h, BIP 37): the encoding of a subset of a
    block's transactions, what it decodes to, and how large it is. */
module PartialMerkle {
  import opened Common
  import opened MerkleTree

  // ---------------------------------------------------------------- matched leaves

  /** The matched transactions among the leaves from `lo` to `hi`, with their indices. */
  ghost function Matched(txids: seq<Hash>, match_: seq<bool>, lo: nat, hi: nat): seq<(Hash, nat)>
    requires hi <= |txids| == |match_|
    decreases hi
  {
    if lo >= hi then []
    else Matched(txids, match_, lo, hi - 1) + if match_[hi - 1] then [(txids[hi - 1], hi - 1)] else []
  }

  lemma {:induction false} MatchedSplit(txids: seq<Hash>, match_: seq<bool>, lo: nat, mid: nat, hi: nat)
    requires lo <= mid <= hi <= |txids| == |match_|
    ensures Matched(txids, match_, lo, hi) == Matched(txids, match_, lo, mid) + Matched(txids, match_, mid, hi)
    decreases hi
  {
    if mid < hi {
      MatchedSplit(txids, match_, lo, mid, hi - 1);
    }
  }

  ghost predicate AnyMatch(match_: seq<bool>, lo: nat, hi: nat)
    requires hi <= |match_|
  {
    exists p | lo <= p < hi :: match_[p]
  }

  lemma {:induction false} NoneMatched(txids: seq<Hash>, match_: seq<bool>, lo: nat, hi: nat)
    requires hi <= |txids| == |match_|
    ensures |Matched(txids, match_, lo, hi)| > 0 <==> AnyMatch(match_, lo, hi)
    decreases hi
  {
    if lo < hi {
      NoneMatched(txids, match_, lo, hi - 1);
    }
  }

  /** The flag of a node: some leaf below it is matched. */
  ghost predicate Flag(match_: seq<bool>, height: nat, pos: nat) {
    AnyMatch(match_, First(height, pos), End(|match_|, height, pos))
  }

  /** The matched transactions below a node. */
  ghost function Below(txids: seq<Hash>, match_: seq<bool>, height: nat, pos: nat): seq<(Hash, nat)>
    requires |txids| == |match_|
  {
    Matched(txids, match_, First(height, pos), End(|txids|, height, pos))
  }

  lemma BelowChildren(txids: seq<Hash>, match_: seq<bool>, height: nat, pos: nat)
    requires |txids| == |match_| && height > 0 && pos < Width(|txids|, height)
    ensures 2 * pos < Width(|txids|, height - 1)
    ensures Below(txids, match_, height, pos) ==
            Below(txids, match_, height - 1, 2 * pos) +
            if 2 * pos + 1 < Width(|txids|, height - 1) then Below(txids, match_, height - 1, 2 * pos + 1) else []
  {
    hide Width, First, Matched;
    var n := |txids|;
    Children(n, height, pos);
    if 2 * pos + 1 < Width(n, height - 1) {
      FirstStep(height - 1, 2 * pos);
      FirstStep(height - 1, 2 * pos + 1);
      MatchedSplit(txids, match_, First(height, pos), First(height - 1, 2 * pos + 1), End(n, height, pos));
    }
  }

  lemma FlagIsBelow(txids: seq<Hash>, match_: seq<bool>, height: nat, pos: nat)
    requires |txids| == |match_|
    ensures Flag(match_, height, pos) <==> |Below(txids, match_, height, pos)| > 0
  {
    NoneMatched(txids, match_, First(height, pos), End(|txids|, height, pos));
  }

  lemma BelowLeaf(txids: seq<Hash>, match_: seq<bool>, pos: nat)
    requires |txids| == |match_| && pos < |txids|
    ensures Below(txids, match_, 0, pos) == if match_[pos] then [(txids[pos], pos)] else []
    ensures Flag(match_, 0, pos) == match_[pos]
  {
    Leaf(|txids|, pos);
    assert Matched(txids, match_, pos, pos) == [];
    FlagIsBelow(txids, match_, 0, pos);
  }

  // ---------------------------------------------------------------- encoding

  datatype Code = Code(bits: seq<bool>, hashes: seq<Hash>)

  /** What the traversal of a node appends: one bit per node visited, one hash per node not descended. */
  ghost function Encode(h: Combiner, txids: seq<Hash>, match_: seq<bool>, height: nat, pos: nat): Code
    requires |txids| == |match_| && pos < Width(|txids|, height)
  {
    var flag := Flag(match_, height, pos);
    if height == 0 || !flag then
      Code([flag], [NodeHash(h, txids, height, pos)])
    else
      Children(|txids|, height, pos);
      var l := Encode(h, txids, match_, height - 1, 2 * pos);
      if 2 * pos + 1 < Width(|txids|, height - 1) then
        var r := Encode(h, txids, match_, height - 1, 2 * pos + 1);
        Code([flag] + l.bits + r.bits, l.hashes + r.hashes)
      else
        Code([flag] + l.bits, l.hashes)
  }

  // ---------------------------------------------------------------- decoding

  /** The result of reading one node: its hash, the cursors, the matches found and whether it went bad. */
  datatype Step = Step(hash: Hash, bitsUsed: nat, hashUsed: nat, found: seq<(Hash, nat)>, bad: bool)

  function Decode(h: Combiner, n: nat, c: Code, height: nat, pos: nat, i: nat, j: nat): Step
  {
    if i >= |c.bits| then
      Step(NULL, i, j, [], true)
    else if height == 0 || !c.bits[i] then
      if j >= |c.hashes| then Step(NULL, i + 1, j, [], true)
      else Step(c.hashes[j], i + 1, j + 1, if height == 0 && c.bits[i] then [(c.hashes[j], pos)] else [], false)
    else
      var l := Decode(h, n, c, height - 1, 2 * pos, i + 1, j);
      if 2 * pos + 1 < Width(n, height - 1) then
        var r := Decode(h, n, c, height - 1, 2 * pos + 1, l.bitsUsed, l.hashUsed);
        Step(h(l.hash, r.hash), r.bitsUsed, r.hashUsed, l.found + r.found, l.bad || r.bad || l.hash == r.hash)
      else
        Step(h(l.hash, l.hash), l.bitsUsed, l.hashUsed, l.found, l.bad)
  }

  const MAX_TRANSACTIONS := 8000000 / 240

  /** The bytes that a number of bits is packed into. */
  function Bytes(bits: nat): nat {
    (bits + 7) / 8
  }

  /** The conditions `ExtractMatches` puts on an encoding of `n` transactions read with result `s`. */
  predicate Accepts(n: nat, c: Code, s: Step) {
    && 0 < n <= MAX_TRANSACTIONS && |c.hashes| <= n && |c.hashes| <= |c.bits|
    && !s.bad && (s.bitsUsed + 7) / 8 == (|c.bits| + 7) / 8 && s.hashUsed == |c.hashes|
  }

  // ---------------------------------------------------------------- soundness

  /** Every match found sits at its index in the true list. */
  ghost predicate AllTrue(txids: seq<Hash>, found: seq<(Hash, nat)>) {
    forall k | 0 <= k < |found| :: found[k].1 < |txids| && txids[found[k].1] == found[k].0
  }

  /** The hashes that are combined when a node that is descended into is read. */
  ghost function ReadHashes(h: Combiner, n: nat, c: Code, height: nat, pos: nat, i: nat, j: nat): (Hash, Hash)
    requires height > 0
  {
    var l := Decode(h, n, c, height - 1, 2 * pos, i + 1, j);
    (l.hash, if 2 * pos + 1 < Width(n, height - 1) then Decode(h, n, c, height - 1, 2 * pos + 1, l.bitsUsed, l.hashUsed).hash else l.hash)
  }

  /** At some node read, the hashes read and the true ones are a collision of the combining function. */
  ghost predicate ReadCollides(h: Combiner, txids: seq<Hash>, c: Code, height: nat, pos: nat, i: nat, j: nat)
    requires pos < Width(|txids|, height)
  {
    i < |c.bits| && height > 0 && c.bits[i] &&
    (Children(|txids|, height, pos);
     var l := Decode(h, |txids|, c, height - 1, 2 * pos, i + 1, j);
     || Collides(h, ReadHashes(h, |txids|, c, height, pos, i, j), ChildHashes(h, txids, height, pos))
     || ReadCollides(h, txids, c, height - 1, 2 * pos, i + 1, j)
     || (2 * pos + 1 < Width(|txids|, height - 1) &&
           ReadCollides(h, txids, c, height - 1, 2 * pos + 1, l.bitsUsed, l.hashUsed)))
  }

  /** A node that is descended into and reads as the true hash has children that do. */
  lemma SoundChildren(h: Combiner, txids: seq<Hash>, c: Code, height: nat, pos: nat, i: nat, j: nat)
    requires pos < Width(|txids|, height) && !ReadCollides(h, txids, c, height, pos, i, j)
    requires i < |c.bits| && height > 0 && c.bits[i]
    requires Decode(h, |txids|, c, height, pos, i, j).hash == NodeHash(h, txids, height, pos)
    ensures 2 * pos < Width(|txids|, height - 1) && !ReadCollides(h, txids, c, height - 1, 2 * pos, i + 1, j)
    ensures var l := Decode(h, |txids|, c, height - 1, 2 * pos, i + 1, j);
            && l.hash == NodeHash(h, txids, height - 1, 2 * pos)
            && if 2 * pos + 1 < Width(|txids|, height - 1) then
                 && !ReadCollides(h, txids, c, height - 1, 2 * pos + 1, l.bitsUsed, l.hashUsed)
                 && var r := Decode(h, |txids|, c, height - 1, 2 * pos + 1, l.bitsUsed, l.hashUsed);
                    && r.hash == NodeHash(h, txids, height - 1, 2 * pos + 1)
                    && Decode(h, |txids|, c, height, pos, i, j).found == l.found + r.found
               else Decode(h, |txids|, c, height, pos, i, j).found == l.found
  {
    hide Width, NodeHash;
    Children(|txids|, height, pos);
    NodeOfChildren(h, txids, height, pos);
    assert !Collides(h, ReadHashes(h, |txids|, c, height, pos, i, j), ChildHashes(h, txids, height, pos));
  }

  /** Whatever the bits and hashes, if a node reads as the true hash then its matches are true. */
  lemma {:induction false} DecodeIsSound(h: Combiner, txids: seq<Hash>, c: Code, height: nat, pos: nat, i: nat, j: nat)
    requires pos < Width(|txids|, height) && !ReadCollides(h, txids, c, height, pos, i, j)
    requires Decode(h, |txids|, c, height, pos, i, j).hash == NodeHash(h, txids, height, pos)
    ensures AllTrue(txids, Decode(h, |txids|, c, height, pos, i, j).found)
    decreases height
  {
    hide Width, ReadCollides;
    if i < |c.bits| && height > 0 && c.bits[i] {
      hide Decode, NodeHash;
      SoundChildren(h, txids, c, height, pos, i, j);
      var l := Decode(h, |txids|, c, height - 1, 2 * pos, i + 1, j);
      DecodeIsSound(h, txids, c, height - 1, 2 * pos, i + 1, j);
      if 2 * pos + 1 < Width(|txids|, height - 1) {
        DecodeIsSound(h, txids, c, height - 1, 2 * pos + 1, l.bitsUsed, l.hashUsed);
      }
    } else {
      Leaf(|txids|, pos);
    }
  }

  /** The indices reported come in increasing order, each below the node that reports it. */
  ghost predicate Increasing(found: seq<(Hash, nat)>, lo: nat, hi: nat) {
    && (forall k | 0 <= k < |found| :: lo <= found[k].1 < hi)
    && forall k, m | 0 <= k < m < |found| :: found[k].1 < found[m].1
  }

  lemma IncreasingJoin(a: seq<(Hash, nat)>, b: seq<(Hash, nat)>, lo: nat, mid: nat, hi: nat)
    requires Increasing(a, lo, mid) && Increasing(b, mid, hi) && lo <= mid <= hi
    ensures Increasing(a + b, lo, hi)
  {
  }

  lemma {:induction false} IndicesIncrease(h: Combiner, n: nat, c: Code, height: nat, pos: nat, i: nat, j: nat)
    requires pos < Width(n, height)
    ensures Increasing(Decode(h, n, c, height, pos, i, j).found, First(height, pos), End(n, height, pos))
  {
    hide Width, First, End, Pow2, Increasing;
    var lo, hi := First(height, pos), End(n, height, pos);
    if i >= |c.bits| || height == 0 || !c.bits[i] {
      Leaf(n, pos);
      FoundHere(Decode(h, n, c, height, pos, i, j).found, lo, hi, pos);
    } else {
      Children(n, height, pos);
      var l := Decode(h, n, c, height - 1, 2 * pos, i + 1, j);
      IndicesIncrease(h, n, c, height - 1, 2 * pos, i + 1, j);
      if 2 * pos + 1 < Width(n, height - 1) {
        var r := Decode(h, n, c, height - 1, 2 * pos + 1, l.bitsUsed, l.hashUsed);
        IndicesIncrease(h, n, c, height - 1, 2 * pos + 1, l.bitsUsed, l.hashUsed);
        var mid := First(height - 1, 2 * pos + 1);
        assert lo <= mid <= hi by { Between(n, height, pos); }
        IncreasingJoin(l.found, r.found, lo, mid, hi);
      }
    }
  }

  lemma FoundHere(found: seq<(Hash, nat)>, lo: nat, hi: nat, pos: nat)
    requires |found| <= 1 && (|found| == 1 ==> found[0].1 == pos && lo <= pos < hi)
    ensures Increasing(found, lo, hi)
  {
  }

  lemma Between(n: nat, height: nat, pos: nat)
    requires height > 0 && 2 * pos + 1 < Width(n, height - 1)
    ensures First(height, pos) <= First(height - 1, 2 * pos + 1) <= End(n, height, pos)
  {
    FirstChild(height, pos);
    FirstChild(height, pos + 1);
    FirstStep(height - 1, 2 * pos);
    FirstStep(height - 1, 2 * pos + 1);
    InTree(n, height - 1, 2 * pos + 1);
  }

  // ---------------------------------------------------------------- completeness

  lemma SiblingsDiffer(h: Combiner, txids: seq<Hash>, height: nat, pos: nat)
    requires !TreeCollides(h, txids) && NoDuplicates(txids) && pos + 1 < Width(|txids|, height)
    ensures NodeHash(h, txids, height, pos) != NodeHash(h, txids, height, pos + 1)
  {
    if NodeHash(h, txids, height, pos) == NodeHash(h, txids, height, pos + 1) {
      SameFirstLeaf(h, txids, height, pos, pos + 1);
      FirstStep(height, pos);
      assert false;
    }
  }

  /** `c` holds the code `e` at the cursors `i` and `j`. */
  ghost predicate Holds(c: Code, e: Code, i: nat, j: nat) {
    && i + |e.bits| <= |c.bits| && c.bits[i..i + |e.bits|] == e.bits
    && j + |e.hashes| <= |c.hashes| && c.hashes[j..j + |e.hashes|] == e.hashes
  }

  lemma HoldsParts(c: Code, flag: bool, l: Code, r: Code, i: nat, j: nat)
    requires Holds(c, Code([flag] + l.bits + r.bits, l.hashes + r.hashes), i, j)
    ensures i < |c.bits| && c.bits[i] == flag
    ensures Holds(c, l, i + 1, j) && Holds(c, r, i + 1 + |l.bits|, j + |l.hashes|)
  {
    Parts(c.bits, [flag], l.bits + r.bits, i);
    assert [flag] + (l.bits + r.bits) == [flag] + l.bits + r.bits;
    assert c.bits[i] == c.bits[i..i + 1][0];
    Parts(c.bits, l.bits, r.bits, i + 1);
    Parts(c.hashes, l.hashes, r.hashes, j);
  }

  lemma Parts<T>(s: seq<T>, a: seq<T>, b: seq<T>, i: nat)
    requires i + |a + b| <= |s| && s[i..i + |a + b|] == a + b
    ensures i + |a| + |b| <= |s| && s[i..i + |a|] == a && s[i + |a|..i + |a| + |b|] == b
  {
    assert a == (a + b)[..|a|] && b == (a + b)[|a|..];
    assert s[i..i + |a|] == s[i..i + |a + b|][..|a|];
    assert s[i + |a|..i + |a| + |b|] == s[i..i + |a + b|][|a|..];
  }

  /** A code split at a node that is descended into. */
  lemma EncodeNode(h: Combiner, txids: seq<Hash>, match_: seq<bool>, height: nat, pos: nat) returns (l: Code, r: Code)
    requires |txids| == |match_| && pos < Width(|txids|, height) && height > 0 && Flag(match_, height, pos)
    ensures 2 * pos < Width(|txids|, height - 1) && l == Encode(h, txids, match_, height - 1, 2 * pos)
    ensures r == if 2 * pos + 1 < Width(|txids|, height - 1) then Encode(h, txids, match_, height - 1, 2 * pos + 1) else Code([], [])
    ensures Encode(h, txids, match_, height, pos) == Code([true] + l.bits + r.bits, l.hashes + r.hashes)
  {
    hide Width, Flag;
    Children(|txids|, height, pos);
    l := Encode(h, txids, match_, height - 1, 2 * pos);
    r := if 2 * pos + 1 < Width(|txids|, height - 1) then Encode(h, txids, match_, height - 1, 2 * pos + 1) else Code([], []);
    assert [true] + l.bits + [] == [true] + l.bits && l.hashes + [] == l.hashes;
  }

  lemma DecodeEncodeLeaf(h: Combiner, txids: seq<Hash>, match_: seq<bool>, c: Code, height: nat, pos: nat, i: nat, j: nat)
    requires |txids| == |match_| && pos < Width(|txids|, height) && (height == 0 || !Flag(match_, height, pos))
    requires Holds(c, Encode(h, txids, match_, height, pos), i, j)
    ensures Decode(h, |txids|, c, height, pos, i, j) ==
            Step(NodeHash(h, txids, height, pos), i + 1, j + 1, Below(txids, match_, height, pos), false)
    ensures |Encode(h, txids, match_, height, pos).bits| == |Encode(h, txids, match_, height, pos).hashes| == 1
  {
    hide Width, Below, Flag, NodeHash;
    FlagIsBelow(txids, match_, height, pos);
    assert c.bits[i] == c.bits[i..i + 1][0];
    assert c.hashes[j] == c.hashes[j..j + 1][0];
    if height == 0 {
      Leaf(|txids|, pos);
      BelowLeaf(txids, match_, pos);
      assert NodeHash(h, txids, 0, pos) == txids[pos] by { LeafHash(h, txids, pos); }
    }
  }

  lemma LeafHash(h: Combiner, txids: seq<Hash>, pos: nat)
    requires pos < |txids|
    ensures Width(|txids|, 0) == |txids| && NodeHash(h, txids, 0, pos) == txids[pos]
  {
    Leaf(|txids|, pos);
  }

  lemma DecodeNode(h: Combiner, n: nat, c: Code, height: nat, pos: nat, i: nat, j: nat, l: Step, r: Step)
    requires height > 0 && i < |c.bits| && c.bits[i] && l == Decode(h, n, c, height - 1, 2 * pos, i + 1, j)
    requires r == Decode(h, n, c, height - 1, 2 * pos + 1, l.bitsUsed, l.hashUsed)
    ensures Decode(h, n, c, height, pos, i, j) ==
            if 2 * pos + 1 < Width(n, height - 1) then
              Step(h(l.hash, r.hash), r.bitsUsed, r.hashUsed, l.found + r.found, l.bad || r.bad || l.hash == r.hash)
            else
              Step(h(l.hash, l.hash), l.bitsUsed, l.hashUsed, l.found, l.bad)
  {
    hide Width;
  }

  lemma NodeHashNode(h: Combiner, txids: seq<Hash>, height: nat, pos: nat)
    requires height > 0 && pos < Width(|txids|, height)
    ensures 2 * pos < Width(|txids|, height - 1)
    ensures NodeHash(h, txids, height, pos) ==
            h(NodeHash(h, txids, height - 1, 2 * pos),
              NodeHash(h, txids, height - 1, if 2 * pos + 1 < Width(|txids|, height - 1) then 2 * pos + 1 else 2 * pos))
  {
    hide Width;
    Children(|txids|, height, pos);
  }

  /** Reading an encoded node gives back its hash and exactly the matched leaves below it. */
  lemma {:induction false} DecodeEncode(h: Combiner, txids: seq<Hash>, match_: seq<bool>, c: Code, height: nat, pos: nat, i: nat, j: nat)
    requires !TreeCollides(h, txids) && NoDuplicates(txids) && |txids| == |match_| && pos < Width(|txids|, height)
    requires Holds(c, Encode(h, txids, match_, height, pos), i, j)
    ensures var e := Encode(h, txids, match_, height, pos);
            Decode(h, |txids|, c, height, pos, i, j) ==
            Step(NodeHash(h, txids, height, pos), i + |e.bits|, j + |e.hashes|, Below(txids, match_, height, pos), false)
    decreases height
  {
    hide Width, Below, Flag, NoDuplicates, Encode, Holds, TreeCollides, Decode, NodeHash;
    if height == 0 || !Flag(match_, height, pos) {
      DecodeEncodeLeaf(h, txids, match_, c, height, pos, i, j);
    } else {
      var n := |txids|;
      BelowChildren(txids, match_, height, pos);
      NodeHashNode(h, txids, height, pos);
      var l, r := EncodeNode(h, txids, match_, height, pos);
      HoldsParts(c, true, l, r, i, j);
      DecodeEncode(h, txids, match_, c, height - 1, 2 * pos, i + 1, j);
      var left := Decode(h, n, c, height - 1, 2 * pos, i + 1, j);
      DecodeNode(h, n, c, height, pos, i, j, left, Decode(h, n, c, height - 1, 2 * pos + 1, left.bitsUsed, left.hashUsed));
      if 2 * pos + 1 < Width(n, height - 1) {
        DecodeEncode(h, txids, match_, c, height - 1, 2 * pos + 1, i + 1 + |l.bits|, j + |l.hashes|);
        SiblingsDiffer(h, txids, height - 1, 2 * pos);
      }
    }
  }
}
