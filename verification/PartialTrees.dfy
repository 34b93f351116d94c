/** The partial trees that bits and hashes stand for (src/merkleblock.cpp): what `ExtractMatches` accepts is exactly
    what such trees are written as. */
module PartialTrees {
  import opened Common
  import opened MerkleTree
  import opened PartialMerkle

  /** A node that is not descended into, with its hash and whether it is a matched transaction; or a node with
      one child or two. */
  datatype Tree = Stop(hash: Hash, flag: bool) | Single(child: Tree) | Pair(left: Tree, right: Tree)

  /** The tree has the form of a node at this place of a block of `n` transactions; only leaves are matched. */
  ghost predicate Fits(n: nat, height: nat, pos: nat, t: Tree) {
    match t
    case Stop(_, flag) => flag ==> height == 0
    case Single(child) => height > 0 && 2 * pos + 1 >= Width(n, height - 1) && Fits(n, height - 1, 2 * pos, child)
    case Pair(left, right) =>
      && height > 0 && 2 * pos + 1 < Width(n, height - 1)
      && Fits(n, height - 1, 2 * pos, left) && Fits(n, height - 1, 2 * pos + 1, right)
  }

  /** The bits, one for each node in depth-first order, and the hashes of the nodes not descended into. */
  ghost function Written(t: Tree): (c: Code)
    ensures 0 < |c.hashes| <= |c.bits|
  {
    match t
    case Stop(hash, flag) => Code([flag], [hash])
    case Single(child) => var c := Written(child); Code([true] + c.bits + [], c.hashes + [])
    case Pair(left, right) =>
      var l, r := Written(left), Written(right);
      Code([true] + l.bits + r.bits, l.hashes + r.hashes)
  }

  ghost function Root(h: Combiner, t: Tree): Hash {
    match t
    case Stop(hash, _) => hash
    case Single(child) => h(Root(h, child), Root(h, child))
    case Pair(left, right) => h(Root(h, left), Root(h, right))
  }

  /** The matched transactions with their places. */
  ghost function Found(t: Tree, pos: nat): seq<(Hash, nat)> {
    match t
    case Stop(hash, flag) => if flag then [(hash, pos)] else []
    case Single(child) => Found(child, 2 * pos)
    case Pair(left, right) => Found(left, 2 * pos) + Found(right, 2 * pos + 1)
  }

  /** No node has two children with the same hash. */
  ghost predicate TwinFree(h: Combiner, t: Tree) {
    match t
    case Stop(_, _) => true
    case Single(child) => TwinFree(h, child)
    case Pair(left, right) => TwinFree(h, left) && TwinFree(h, right) && Root(h, left) != Root(h, right)
  }

  /** What reading the node gives. */
  ghost predicate Reads(h: Combiner, n: nat, height: nat, pos: nat, c: Code, i: nat, j: nat, t: Tree, s: Step) {
    && Fits(n, height, pos, t) && TwinFree(h, t) && Holds(c, Written(t), i, j)
    && s == Step(Root(h, t), i + |Written(t).bits|, j + |Written(t).hashes|, Found(t, pos), false)
  }

  lemma HoldsJoin(c: Code, flag: bool, l: Code, r: Code, i: nat, j: nat)
    requires i < |c.bits| && c.bits[i] == flag && Holds(c, l, i + 1, j) && Holds(c, r, i + 1 + |l.bits|, j + |l.hashes|)
    ensures Holds(c, Code([flag] + l.bits + r.bits, l.hashes + r.hashes), i, j)
  {
    var bits, hashes := [flag] + l.bits + r.bits, l.hashes + r.hashes;
    assert c.bits[i..i + |bits|] == [c.bits[i]] + c.bits[i + 1..i + 1 + |l.bits|] + c.bits[i + 1 + |l.bits|..i + |bits|];
    assert c.hashes[j..j + |hashes|] == c.hashes[j..j + |l.hashes|] + c.hashes[j + |l.hashes|..j + |hashes|];
  }

  /** Whatever is read without complaint is the writing of a tree. */
  lemma {:induction false} ReadTree(h: Combiner, n: nat, height: nat, pos: nat, c: Code, i: nat, j: nat) returns (t: Tree)
    requires !Decode(h, n, c, height, pos, i, j).bad
    ensures Reads(h, n, height, pos, c, i, j, t, Decode(h, n, c, height, pos, i, j))
    decreases height
  {
    hide Width, Holds, Decode, Fits, Root, Found, TwinFree;
    HasData(h, n, height, pos, c, i, j);
    if height == 0 || !c.bits[i] {
      t := Stop(c.hashes[j], c.bits[i]);
      HoldsOne(c, i, j);
      StopRead(h, n, height, pos, c, i, j);
      StopIsRead(h, n, height, pos, t);
    } else {
      var s := Decode(h, n, c, height - 1, 2 * pos, i + 1, j);
      DecodeNode(h, n, c, height, pos, i, j, s, Decode(h, n, c, height - 1, 2 * pos + 1, s.bitsUsed, s.hashUsed));
      var l := ReadTree(h, n, height - 1, 2 * pos, c, i + 1, j);
      var left := Written(l);
      if 2 * pos + 1 < Width(n, height - 1) {
        var r := ReadTree(h, n, height - 1, 2 * pos + 1, c, i + 1 + |left.bits|, j + |left.hashes|);
        t := Pair(l, r);
        PairIsRead(h, n, height, pos, l, r);
        HoldsJoin(c, true, left, Written(r), i, j);
      } else {
        t := Single(l);
        SingleIsRead(h, n, height, pos, l);
        assert Holds(c, Code([], []), i + 1 + |left.bits|, j + |left.hashes|) by { HoldsNone(c, left, i + 1, j); }
        HoldsJoin(c, true, left, Code([], []), i, j);
      }
    }
  }

  lemma StopIsRead(h: Combiner, n: nat, height: nat, pos: nat, t: Tree)
    requires t.Stop? && (t.flag ==> height == 0)
    ensures Fits(n, height, pos, t) && TwinFree(h, t) && Root(h, t) == t.hash
    ensures Found(t, pos) == if t.flag then [(t.hash, pos)] else []
  {
  }

  lemma SingleIsRead(h: Combiner, n: nat, height: nat, pos: nat, l: Tree)
    requires height > 0 && 2 * pos + 1 >= Width(n, height - 1) && Fits(n, height - 1, 2 * pos, l) && TwinFree(h, l)
    ensures Fits(n, height, pos, Single(l)) && TwinFree(h, Single(l)) && Root(h, Single(l)) == h(Root(h, l), Root(h, l))
    ensures Found(Single(l), pos) == Found(l, 2 * pos)
  {
    hide Width;
  }

  lemma PairIsRead(h: Combiner, n: nat, height: nat, pos: nat, l: Tree, r: Tree)
    requires height > 0 && 2 * pos + 1 < Width(n, height - 1) && Fits(n, height - 1, 2 * pos, l) && Fits(n, height - 1, 2 * pos + 1, r)
    requires TwinFree(h, l) && TwinFree(h, r) && Root(h, l) != Root(h, r)
    ensures Fits(n, height, pos, Pair(l, r)) && TwinFree(h, Pair(l, r)) && Root(h, Pair(l, r)) == h(Root(h, l), Root(h, r))
    ensures Found(Pair(l, r), pos) == Found(l, 2 * pos) + Found(r, 2 * pos + 1)
  {
    hide Width;
  }

  lemma HasData(h: Combiner, n: nat, height: nat, pos: nat, c: Code, i: nat, j: nat)
    requires !Decode(h, n, c, height, pos, i, j).bad
    ensures i < |c.bits| && (height == 0 || !c.bits[i] ==> j < |c.hashes|)
  {
  }

  lemma HoldsOne(c: Code, i: nat, j: nat)
    requires i < |c.bits| && j < |c.hashes|
    ensures Holds(c, Code([c.bits[i]], [c.hashes[j]]), i, j)
  {
  }

  lemma HoldsNone(c: Code, e: Code, i: nat, j: nat)
    requires Holds(c, e, i, j)
    ensures Holds(c, Code([], []), i + |e.bits|, j + |e.hashes|)
  {
  }

  /** The writing of a tree is read back. */
  lemma {:induction false} TreeIsRead(h: Combiner, n: nat, height: nat, pos: nat, c: Code, i: nat, j: nat, t: Tree)
    requires Fits(n, height, pos, t) && TwinFree(h, t) && Holds(c, Written(t), i, j)
    ensures Reads(h, n, height, pos, c, i, j, t, Decode(h, n, c, height, pos, i, j))
    decreases height
  {
    hide Width, Holds, Decode;
    match t {
      case Stop(hash, flag) =>
        StopHeld(c, hash, flag, i, j);
        StopRead(h, n, height, pos, c, i, j);
      case Single(child) =>
        HoldsParts(c, true, Written(child), Code([], []), i, j);
        TreeIsRead(h, n, height - 1, 2 * pos, c, i + 1, j, child);
        var s := Decode(h, n, c, height - 1, 2 * pos, i + 1, j);
        DecodeNode(h, n, c, height, pos, i, j, s, Decode(h, n, c, height - 1, 2 * pos + 1, s.bitsUsed, s.hashUsed));
      case Pair(left, right) =>
        var l := Written(left);
        HoldsParts(c, true, l, Written(right), i, j);
        TreeIsRead(h, n, height - 1, 2 * pos, c, i + 1, j, left);
        TreeIsRead(h, n, height - 1, 2 * pos + 1, c, i + 1 + |l.bits|, j + |l.hashes|, right);
        var s := Decode(h, n, c, height - 1, 2 * pos, i + 1, j);
        DecodeNode(h, n, c, height, pos, i, j, s, Decode(h, n, c, height - 1, 2 * pos + 1, s.bitsUsed, s.hashUsed));
    }
  }

  lemma StopRead(h: Combiner, n: nat, height: nat, pos: nat, c: Code, i: nat, j: nat)
    requires i < |c.bits| && j < |c.hashes| && (height == 0 || !c.bits[i])
    ensures Decode(h, n, c, height, pos, i, j) ==
            Step(c.hashes[j], i + 1, j + 1, if height == 0 && c.bits[i] then [(c.hashes[j], pos)] else [], false)
  {
  }

  lemma StopHeld(c: Code, hash: Hash, flag: bool, i: nat, j: nat)
    requires Holds(c, Code([flag], [hash]), i, j)
    ensures i < |c.bits| && j < |c.hashes| && c.bits[i] == flag && c.hashes[j] == hash
  {
    assert c.bits[i] == c.bits[i..i + 1][0] && c.hashes[j] == c.hashes[j..j + 1][0];
  }

  /** The hashes are those of the tree, and so are the bits, up to the padding of the last byte. */
  ghost predicate Holding(h: Combiner, n: nat, height: nat, c: Code, t: Tree) {
    && Fits(n, height, 0, t) && TwinFree(h, t)
    && c.hashes == Written(t).hashes && Written(t).bits <= c.bits && Bytes(|Written(t).bits|) == Bytes(|c.bits|)
  }

  /** Data is accepted if and only if it is the writing of a tree without twins, for a number of transactions
      in range and with no more hashes than transactions. */
  lemma AcceptedExactly(h: Combiner, n: nat, height: nat, c: Code)
    ensures var s := Decode(h, n, c, height, 0, 0, 0);
            Accepts(n, c, s) <==> 0 < n <= MAX_TRANSACTIONS && |c.hashes| <= n && exists t :: Holding(h, n, height, c, t)
    ensures var s := Decode(h, n, c, height, 0, 0, 0);
            forall t | Holding(h, n, height, c, t) :: s.hash == Root(h, t) && s.found == Found(t, 0)
  {
    hide Width, Decode, Fits;
    var s := Decode(h, n, c, height, 0, 0, 0);
    if Accepts(n, c, s) {
      var t := ReadTree(h, n, height, 0, c, 0, 0);
      assert c.hashes[0..|c.hashes|] == c.hashes;
      assert Holding(h, n, height, c, t);
    }
    forall t | Holding(h, n, height, c, t)
      ensures s.hash == Root(h, t) && s.found == Found(t, 0) && !s.bad && s.bitsUsed == |Written(t).bits| && s.hashUsed == |c.hashes| <= |c.bits|
    {
      assert c.bits[0..|Written(t).bits|] == Written(t).bits && c.hashes[0..|c.hashes|] == c.hashes;
      TreeIsRead(h, n, height, 0, c, 0, 0, t);
    }
  }

  /** What is accepted is used up: with more hashes, or with more bytes of bits, it is not accepted. */
  lemma UsedUp(h: Combiner, n: nat, height: nat, c: Code, more: Code)
    requires Accepts(n, c, Decode(h, n, c, height, 0, 0, 0))
    requires c.bits <= more.bits && c.hashes <= more.hashes
    requires Accepts(n, more, Decode(h, n, more, height, 0, 0, 0))
    ensures more.hashes == c.hashes && Bytes(|more.bits|) == Bytes(|c.bits|)
  {
    hide Width, Decode, Fits;
    var t := ReadTree(h, n, height, 0, c, 0, 0);
    var w := Written(t);
    assert more.bits[0..|w.bits|] == c.bits[0..|w.bits|] && more.hashes[0..|w.hashes|] == c.hashes[0..|w.hashes|];
    TreeIsRead(h, n, height, 0, more, 0, 0, t);
  }
}
