/** The Merkle tree over the transactions of a block (src/merkleblock.cpp, src/merkleblock.h): widths,
    node hashes and the leaves below a node. */
module MerkleTree {
  import opened Common

  /** A 256-bit hash; 0 stands for the null hash. */
  type Hash = x: nat | x < 0x1_0000000000000000_0000000000000000_0000000000000000_0000000000000000

  const NULL: Hash := 0

  type Combiner = (Hash, Hash) -> Hash

  /** `CalcTreeWidth`: the number of nodes at a height. */
  function Width(n: nat, height: nat): nat {
    (n + Pow2(height) - 1) / Pow2(height)
  }

  /** The first leaf below a node, and the end of its leaves. */
  function First(height: nat, pos: nat): nat {
    pos * Pow2(height)
  }

  function End(n: nat, height: nat, pos: nat): nat {
    var e := First(height, pos + 1);
    if e < n then e else n
  }

  lemma CeilingDivision(n: nat, d: nat, pos: nat)
    requires d > 0
    ensures pos < (n + d - 1) / d <==> pos * d < n
  {
    var q := (n + d - 1) / d;
    var r := (n + d - 1) % d;
    assert n + d - 1 == q * d + r;
    if pos < q {
      MulMonotone(pos + 1, q, d);
      assert (pos + 1) * d == pos * d + d;
    } else {
      MulMonotone(q, pos, d);
    }
  }

  /** A position is in the tree exactly when it has a leaf. */
  lemma InTree(n: nat, height: nat, pos: nat)
    ensures pos < Width(n, height) <==> First(height, pos) < n
  {
    CeilingDivision(n, Pow2(height), pos);
  }

  /** Each level is half as wide as the one below, rounded up. */
  lemma WidthHalves(n: nat, height: nat)
    requires height > 0
    ensures Width(n, height) == (Width(n, height - 1) + 1) / 2
  {
    hide Width;
    var w, v := Width(n, height), Width(n, height - 1);
    HalfAt(n, height, w);
    if w > 0 {
      HalfAt(n, height, w - 1);
    }
  }

  lemma HalfAt(n: nat, height: nat, pos: nat)
    requires height > 0
    ensures pos < Width(n, height) <==> 2 * pos < Width(n, height - 1)
  {
    hide Width, First;
    InTree(n, height, pos);
    InTree(n, height - 1, 2 * pos);
    FirstChild(height, pos);
  }

  lemma FirstChild(height: nat, pos: nat)
    requires height > 0
    ensures First(height, pos) == First(height - 1, 2 * pos)
  {
    var p := Pow2(height - 1);
    assert pos * (2 * p) == 2 * pos * p;
  }

  /** The leaves of a node are those of its left child followed by those of its right child, if any. */
  lemma Children(n: nat, height: nat, pos: nat)
    requires height > 0 && pos < Width(n, height)
    ensures 2 * pos < Width(n, height - 1)
    ensures First(height, pos) == First(height - 1, 2 * pos) < n
    ensures 2 * pos + 1 < Width(n, height - 1) ==>
              End(n, height - 1, 2 * pos) == First(height - 1, 2 * pos + 1) < n &&
              End(n, height - 1, 2 * pos + 1) == End(n, height, pos)
    ensures 2 * pos + 1 >= Width(n, height - 1) ==> End(n, height - 1, 2 * pos) == End(n, height, pos) == n
  {
    FirstChild(height, pos);
    FirstChild(height, pos + 1);
    InTree(n, height, pos);
    InTree(n, height - 1, 2 * pos);
    InTree(n, height - 1, 2 * pos + 1);
    assert 2 * (pos + 1) == 2 * pos + 1 + 1;
    FirstStep(height - 1, 2 * pos + 1);
  }

  lemma FirstStep(height: nat, pos: nat)
    ensures First(height, pos + 1) == First(height, pos) + Pow2(height)
  {
    assert (pos + 1) * Pow2(height) == pos * Pow2(height) + Pow2(height);
  }

  lemma Leaf(n: nat, pos: nat)
    ensures Width(n, 0) == n && First(0, pos) == pos && (pos < n ==> End(n, 0, pos) == pos + 1)
  {
  }

  ghost predicate IsHeight(n: nat, height: nat) {
    Width(n, height) <= 1 && forall k: nat | k < height :: Width(n, k) > 1
  }

  /** The height of the tree: the source counts up from 0 until the width is at most 1. */
  method TreeHeight(n: nat) returns (height: nat)
    ensures IsHeight(n, height)
  {
    height := 0;
    while Width(n, height) > 1
      invariant forall k: nat | k < height :: Width(n, k) > 1
      decreases Width(n, height)
    {
      WidthHalves(n, height + 1);
      height := height + 1;
    }
  }

  /** `CalcHash`: the hash of a node; a missing right child repeats the left one. */
  function NodeHash(h: Combiner, txids: seq<Hash>, height: nat, pos: nat): Hash
    requires pos < Width(|txids|, height)
  {
    if height == 0 then
      Leaf(|txids|, pos);
      txids[pos]
    else
      Children(|txids|, height, pos);
      var left := NodeHash(h, txids, height - 1, 2 * pos);
      var right := if 2 * pos + 1 < Width(|txids|, height - 1) then NodeHash(h, txids, height - 1, 2 * pos + 1) else left;
      h(left, right)
  }

  /** The level above a list of hashes: neighbours are combined, and a last one without neighbour with itself. */
  ghost function LevelAbove(h: Combiner, s: seq<Hash>): seq<Hash> {
    seq((|s| + 1) / 2, p requires 0 <= p < (|s| + 1) / 2 => h(s[2 * p], if 2 * p + 1 < |s| then s[2 * p + 1] else s[2 * p]))
  }

  /** The root of a list of hashes: level by level until one is left. */
  ghost function MerkleRoot(h: Combiner, s: seq<Hash>): Hash
    requires s != []
    decreases |s|
  {
    if |s| == 1 then s[0] else MerkleRoot(h, LevelAbove(h, s))
  }

  ghost function Level(h: Combiner, s: seq<Hash>, height: nat): seq<Hash> {
    if height == 0 then s else LevelAbove(h, Level(h, s, height - 1))
  }

  lemma {:induction false} NodesAreLevels(h: Combiner, txids: seq<Hash>, height: nat)
    ensures |Level(h, txids, height)| == Width(|txids|, height)
    ensures forall p: nat | p < Width(|txids|, height) :: NodeHash(h, txids, height, p) == Level(h, txids, height)[p]
  {
    hide Width, NodeHash;
    if height == 0 {
      LevelOfLeaves(h, txids);
    } else {
      NodesAreLevels(h, txids, height - 1);
      WidthHalves(|txids|, height);
      var below := Level(h, txids, height - 1);
      forall p: nat | p < Width(|txids|, height) ensures NodeHash(h, txids, height, p) == Level(h, txids, height)[p] {
        Children(|txids|, height, p);
        NodeOfChildren(h, txids, height, p);
        LevelAboveAt(h, below, p);
      }
    }
  }

  lemma LevelOfLeaves(h: Combiner, txids: seq<Hash>)
    ensures Width(|txids|, 0) == |txids| && forall p: nat | p < |txids| :: NodeHash(h, txids, 0, p) == txids[p]
  {
    Leaf(|txids|, 0);
  }

  lemma LevelAboveAt(h: Combiner, s: seq<Hash>, p: nat)
    requires p < (|s| + 1) / 2
    ensures |LevelAbove(h, s)| == (|s| + 1) / 2
    ensures LevelAbove(h, s)[p] == h(s[2 * p], if 2 * p + 1 < |s| then s[2 * p + 1] else s[2 * p])
  {
  }

  lemma {:induction false} RootOfLevel(h: Combiner, txids: seq<Hash>, height: nat)
    requires txids != [] && forall k: nat | k < height :: Width(|txids|, k) > 1
    ensures Level(h, txids, height) != [] && MerkleRoot(h, txids) == MerkleRoot(h, Level(h, txids, height))
  {
    hide Width, LevelAbove, NodeHash;
    if height > 0 {
      RootOfLevel(h, txids, height - 1);
      NodesAreLevels(h, txids, height - 1);
      LevelAboveAt(h, Level(h, txids, height - 1), 0);
    }
  }

  /** The node at the top of the tree has the Merkle root of the block. */
  lemma TopIsMerkleRoot(h: Combiner, txids: seq<Hash>, height: nat)
    requires txids != [] && IsHeight(|txids|, height)
    ensures Width(|txids|, height) == 1 && NodeHash(h, txids, height, 0) == MerkleRoot(h, txids)
  {
    hide Width, NodeHash, LevelAbove;
    RootOfLevel(h, txids, height);
    NodesAreLevels(h, txids, height);
  }

  /** The hashes that are combined for a node. */
  ghost function ChildHashes(h: Combiner, txids: seq<Hash>, height: nat, pos: nat): (Hash, Hash)
    requires height > 0 && pos < Width(|txids|, height)
  {
    Children(|txids|, height, pos);
    var left := NodeHash(h, txids, height - 1, 2 * pos);
    (left, if 2 * pos + 1 < Width(|txids|, height - 1) then NodeHash(h, txids, height - 1, 2 * pos + 1) else left)
  }

  lemma NodeOfChildren(h: Combiner, txids: seq<Hash>, height: nat, pos: nat)
    requires height > 0 && pos < Width(|txids|, height)
    ensures NodeHash(h, txids, height, pos) == Combined(h, ChildHashes(h, txids, height, pos))
  {
    hide Width;
    Children(|txids|, height, pos);
  }

  ghost function Combined(h: Combiner, pair: (Hash, Hash)): Hash {
    h(pair.0, pair.1)
  }

  /** Different pairs that combine to the same hash. */
  ghost predicate Collides(h: Combiner, a: (Hash, Hash), b: (Hash, Hash)) {
    a != b && Combined(h, a) == Combined(h, b)
  }

  /** Two nodes of the tree, at one height, are a collision of the combining function. */
  ghost predicate TreeCollides(h: Combiner, txids: seq<Hash>) {
    exists height: nat, p: nat, q: nat ::
      height > 0 && p < Width(|txids|, height) && q < Width(|txids|, height) &&
      Collides(h, ChildHashes(h, txids, height, p), ChildHashes(h, txids, height, q))
  }

  /** Nodes of one height with the same hash have the same first leaf. */
  lemma {:induction false} SameFirstLeaf(h: Combiner, txids: seq<Hash>, height: nat, p: nat, q: nat)
    requires !TreeCollides(h, txids) && p < Width(|txids|, height) && q < Width(|txids|, height)
    requires NodeHash(h, txids, height, p) == NodeHash(h, txids, height, q)
    ensures First(height, p) < |txids| && First(height, q) < |txids|
    ensures txids[First(height, p)] == txids[First(height, q)]
  {
    if height == 0 {
      Leaf(|txids|, p);
      Leaf(|txids|, q);
    } else {
      Children(|txids|, height, p);
      Children(|txids|, height, q);
      NodeOfChildren(h, txids, height, p);
      NodeOfChildren(h, txids, height, q);
      assert !Collides(h, ChildHashes(h, txids, height, p), ChildHashes(h, txids, height, q));
      SameFirstLeaf(h, txids, height - 1, 2 * p, 2 * q);
    }
  }
}
