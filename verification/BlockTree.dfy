/** The tree of block headers with its skip list (src/chain.cpp, src/chain.h). */
module BlockTree {
  import opened Common
  import opened SkipList

  // ---------------------------------------------------------------- blocks

  /** `CBlockIndex`. The links of a block do not change once it is in the tree. */
  class BlockIndex {
    const hash: nat
    const pprev: BlockIndex?
    const pskip: BlockIndex?
    const nHeight: nat

    /** A new block on top of `prev`, with its skip pointer built. */
    constructor (hash: nat, prev: BlockIndex?)
      requires prev != null ==> Sound(prev)
      ensures Sound(this) && pprev == prev && this.hash == hash
      ensures prev == null || Skips(prev) ==> Skips(this)
    {
      this.hash, pprev := hash, prev;
      if prev == null {
        nHeight, pskip := 0, null;
      } else {
        nHeight := prev.nHeight + 1;
        var skip, _ := GetAncestor(prev, SkipHeight(prev.nHeight + 1));
        pskip := skip;
      }
    }
  }

  /** Heights count the blocks below, down to a block without a previous one. */
  ghost predicate Linked(b: BlockIndex)
    decreases b.nHeight
  {
    if b.pprev == null then b.nHeight == 0
    else b.nHeight == b.pprev.nHeight + 1 && Linked(b.pprev)
  }

  /** Walking back block by block. */
  ghost function Ancestor(b: BlockIndex, height: nat): (r: BlockIndex)
    requires Linked(b) && height <= b.nHeight
    ensures Linked(r) && r.nHeight == height
    decreases b.nHeight
  {
    if b.nHeight == height then b else Ancestor(b.pprev, height)
  }

  /** Skip pointers, where present, lead to the ancestor at the skip height, all the way down. */
  ghost predicate Sound(b: BlockIndex)
    decreases b.nHeight
  {
    && Linked(b)
    && (b.pskip != null ==> b.nHeight > 0 && b.pskip == Ancestor(b, SkipHeight(b.nHeight)))
    && (b.pprev != null ==> Sound(b.pprev))
  }

  /** Every block has its skip pointer, all the way down. */
  ghost predicate Skips(b: BlockIndex)
    requires Linked(b)
    decreases b.nHeight
  {
    b.pprev != null ==> b.pskip != null && Skips(b.pprev)
  }

  lemma {:induction false} AncestorSkips(b: BlockIndex, i: nat)
    requires Linked(b) && Skips(b) && i <= b.nHeight
    ensures Skips(Ancestor(b, i))
    decreases b.nHeight
  {
    if i < b.nHeight {
      AncestorSkips(b.pprev, i);
    }
  }

  lemma {:induction false} AncestorOfAncestor(b: BlockIndex, i: nat, j: nat)
    requires Linked(b) && i <= j <= b.nHeight
    ensures Ancestor(Ancestor(b, j), i) == Ancestor(b, i)
    decreases b.nHeight
  {
    if j < b.nHeight {
      AncestorOfAncestor(b.pprev, i, j);
    }
  }

  /** One step back. */
  lemma PreviousIsAncestor(b: BlockIndex, h: nat)
    requires Linked(b) && h <= b.nHeight
    ensures Ancestor(b, b.nHeight) == b
    ensures var prev := Ancestor(b, h).pprev; if h == 0 then prev == null else prev == Ancestor(b, h - 1)
  {
    if h > 0 {
      AncestorOfAncestor(b, h - 1, h);
    }
  }

  lemma {:induction false} AncestorIsSound(b: BlockIndex, i: nat)
    requires Sound(b) && i <= b.nHeight
    ensures Sound(Ancestor(b, i))
    decreases b.nHeight
  {
    if i < b.nHeight {
      AncestorIsSound(b.pprev, i);
    }
  }

  /** `GetAncestor` along skip pointers gives what walking back gives, in a number of steps that grows with
      the square of the length of the height in bits. */
  method GetAncestor(b: BlockIndex, height: int) returns (r: BlockIndex?, ghost steps: nat)
    requires Sound(b)
    ensures r == null <==> height < 0 || height > b.nHeight
    ensures r != null ==> r == Ancestor(b, height) && Sound(r)
    ensures Skips(b) ==> forall k: nat | b.nHeight < Pow2(k) :: 4 * steps <= k * k + 11 * k
  {
    hide SkipHeight, Steps;
    steps := 0;
    if height > b.nHeight || height < 0 {
      return null, 0;
    }
    var walk: BlockIndex, heightWalk := b, b.nHeight;
    while heightWalk > height
      invariant height <= heightWalk == walk.nHeight <= b.nHeight && Sound(walk) && walk == Ancestor(b, heightWalk)
      invariant Skips(b) ==> Skips(walk) && steps + Steps(heightWalk, height) == Steps(b.nHeight, height)
    {
      if Skips(walk) {
        StepsNext(heightWalk, height);
      }
      steps := steps + 1;
      var heightSkip, heightSkipPrev := SkipHeight(heightWalk), SkipHeight(heightWalk - 1);
      if walk.pskip != null &&
         (heightSkip == height || (heightSkip > height && !(heightSkipPrev < heightSkip - 2 && heightSkipPrev >= height))) {
        if Skips(walk) {
          AncestorSkips(walk, heightSkip);
        }
        AncestorIsSound(walk, heightSkip);
        AncestorOfAncestor(b, heightSkip, heightWalk);
        walk, heightWalk := walk.pskip, heightSkip;
      } else {
        assert walk.pprev != null;
        AncestorOfAncestor(b, heightWalk - 1, heightWalk);
        walk, heightWalk := walk.pprev, heightWalk - 1;
      }
    }
    r := walk;
    if Skips(b) {
      StepsEnd(height);
      forall k: nat | b.nHeight < Pow2(k) ensures 4 * steps <= k * k + 11 * k {
        StepsInBits(k, b.nHeight, height);
      }
    }
  }

  // ---------------------------------------------------------------- common ancestors

  /** Two blocks have the same ancestor at a height. */
  ghost predicate Meet(a: BlockIndex, b: BlockIndex, h: int)
    requires Linked(a) && Linked(b)
  {
    0 <= h <= a.nHeight && h <= b.nHeight && Ancestor(a, h) == Ancestor(b, h)
  }

  /** `r` is the highest block that both descend from, or null when there is none. */
  ghost predicate IsLastCommon(a: BlockIndex, b: BlockIndex, r: BlockIndex?)
    requires Linked(a) && Linked(b)
  {
    && (r != null ==> Meet(a, b, r.nHeight) && r == Ancestor(a, r.nHeight))
    && forall h: nat | Meet(a, b, h) :: r != null && h <= r.nHeight
  }

  /** `LastCommonAncestor`; the two walks always end at the same block, so its assertion holds. */
  method LastCommonAncestor(a: BlockIndex, b: BlockIndex) returns (r: BlockIndex?)
    requires Sound(a) && Sound(b)
    ensures IsLastCommon(a, b, r)
  {
    var pa: BlockIndex?, pb: BlockIndex? := a, b;
    ghost var steps;
    if a.nHeight > b.nHeight {
      pa, steps := GetAncestor(a, b.nHeight);
    } else if b.nHeight > a.nHeight {
      pb, steps := GetAncestor(b, a.nHeight);
    }
    while pa != pb && pa != null && pb != null
      invariant pa == null <==> pb == null
      invariant pa != null && pb != null ==>
                  pa.nHeight == pb.nHeight <= a.nHeight && pb.nHeight <= b.nHeight &&
                  pa == Ancestor(a, pa.nHeight) && pb == Ancestor(b, pb.nHeight)
      invariant forall h: nat | Meet(a, b, h) :: pa != null && h <= pa.nHeight
      decreases if pa == null then 0 else pa.nHeight + 1
    {
      var h := pa.nHeight;
      if h > 0 {
        AncestorOfAncestor(a, h - 1, h);
        AncestorOfAncestor(b, h - 1, h);
      }
      assert !Meet(a, b, h);
      pa, pb := pa.pprev, pb.pprev;
    }
    assert pa == pb;
    return pa;
  }

  // ---------------------------------------------------------------- the active chain

  /** The heights of a block locator: ten single steps, then steps that double, and the genesis block. */
  ghost function LocatorHeights(height: nat, have: nat, step: nat): (r: seq<nat>)
    requires step > 0
    decreases height
  {
    if height == 0 then [0]
    else
      var next := if height - step > 0 then height - step else 0;
      [height] + LocatorHeights(next, have + 1, if have + 1 > 10 then 2 * step else step)
  }

  class Chain {
    /** Entry `i` is the block of height `i`. */
    var vChain: seq<BlockIndex?>

    ghost predicate Valid()
      reads this
    {
      vChain == [] || (vChain[|vChain| - 1] != null && IsChainOf(vChain, vChain[|vChain| - 1]))
    }

    constructor ()
      ensures Valid() && vChain == []
    {
      vChain := [];
    }

    /** The entry at a height, null outside the chain. */
    function At(height: int): BlockIndex?
      reads this
    {
      if height < 0 || height >= |vChain| then null else vChain[height]
    }

    predicate Contains(b: BlockIndex)
      reads this
    {
      At(b.nHeight) == b
    }

    function Next(b: BlockIndex): BlockIndex?
      reads this
    {
      if Contains(b) then At(b.nHeight + 1) else null
    }

    /** A block is in the chain exactly when it is an ancestor of the tip, and then its successor is the
        block of the chain above it. */
    lemma ContainsIsAncestor(b: BlockIndex)
      requires Valid() && vChain != [] && Linked(b)
      ensures var tip := vChain[|vChain| - 1];
              && tip != null && Linked(tip)
              && (Contains(b) <==> b.nHeight <= tip.nHeight && Ancestor(tip, b.nHeight) == b)
              && (Contains(b) && b.nHeight < tip.nHeight ==> Next(b) != null && Next(b).pprev == b)
    {
      var tip := vChain[|vChain| - 1];
      if b.nHeight < tip.nHeight {
        AncestorOfAncestor(tip, b.nHeight, b.nHeight + 1);
      }
    }

    /** `SetTip`: whatever chain was there before, entry `i` becomes the ancestor of height `i`. */
    method SetTip(b: BlockIndex?)
      requires Valid() && (b != null ==> Sound(b))
      modifies this
      ensures Valid()
      ensures if b == null then vChain == [] else IsChainOf(vChain, b)
    {
      if b == null {
        vChain := [];
        return;
      }
      hide Ancestor, Linked;
      ghost var was := vChain;
      var n := b.nHeight + 1;
      vChain := if n <= |vChain| then vChain[..n] else vChain + seq(n - |vChain|, _ => null);
      PreviousIsAncestor(b, 0);
      var p: BlockIndex? := b;
      while p != null && vChain[p.nHeight] != p
        invariant |vChain| == n
        invariant p != null ==> p.nHeight < n && p == Ancestor(b, p.nHeight)
        invariant forall i | (if p == null then 0 else p.nHeight + 1) <= i < n :: vChain[i] == Ancestor(b, i)
        invariant p != null ==> forall i | 0 <= i <= p.nHeight :: vChain[i] == if i < |was| then was[i] else null
        decreases if p == null then 0 else p.nHeight + 1
      {
        var h := p.nHeight;
        PreviousIsAncestor(b, h);
        vChain := vChain[h := p];
        p := p.pprev;
      }
      if p != null {
        SharedBelow(was, b, p.nHeight);
      }
    }

    /** `FindFork`: the highest block of this chain that the given block descends from. */
    method FindFork(b: BlockIndex?) returns (r: BlockIndex?)
      requires Valid() && (b != null ==> Sound(b))
      ensures b == null || vChain == [] ==> r == null
      ensures b != null && vChain != [] ==> IsLastCommon(b, vChain[|vChain| - 1], r)
    {
      if b == null {
        return null;
      }
      var p: BlockIndex? := b;
      if b.nHeight > |vChain| - 1 {
        ghost var steps;
        p, steps := GetAncestor(b, |vChain| - 1);
      }
      if vChain == [] {
        return p;
      }
      ghost var tip := vChain[|vChain| - 1];
      while p != null && !Contains(p)
        invariant p != null ==> Linked(p) && p.nHeight <= b.nHeight && p.nHeight < |vChain| && p == Ancestor(b, p.nHeight)
        invariant forall h: nat | Meet(b, tip, h) :: p != null && h <= p.nHeight
        decreases if p == null then 0 else p.nHeight + 1
      {
        var h := p.nHeight;
        if h > 0 {
          AncestorOfAncestor(b, h - 1, h);
        }
        assert !Meet(b, tip, h);
        p := p.pprev;
      }
      return p;
    }

    /** `GetLocator`: the hashes at the locator heights below a block, by default the tip. Looking blocks up
        in this chain gives the same as following skip pointers. */
    method GetLocator(b: BlockIndex?) returns (vHave: seq<nat>)
      requires Valid() && (b != null ==> Sound(b))
      ensures b == null && vChain == [] ==> vHave == []
      ensures b != null || vChain != [] ==>
                var start := if b != null then b else vChain[|vChain| - 1];
                vHave == HashesAt(start, LocatorHeights(start.nHeight, 0, 1))
    {
      hide Ancestor, Linked, LocatorHeights, HashesAt;
      vHave := [];
      var nStep := 1;
      var start := if b != null then b else At(|vChain| - 1);
      if start == null {
        return;
      }
      PreviousIsAncestor(start, 0);
      var p := start;
      while true
        invariant p != null && p.nHeight <= start.nHeight && p == Ancestor(start, p.nHeight) && nStep > 0
        invariant Sound(p) || Contains(p)
        invariant vHave + HashesAt(start, LocatorHeights(p.nHeight, |vHave|, nStep)) ==
                  HashesAt(start, LocatorHeights(start.nHeight, 0, 1))
        decreases p.nHeight
      {
        LocatorNext(start, p.nHeight, |vHave|, nStep);
        vHave := vHave + [p.hash];
        if p.nHeight == 0 {
          break;
        }
        var nHeight := if p.nHeight - nStep > 0 then p.nHeight - nStep else 0;
        AncestorOfAncestor(start, nHeight, p.nHeight);
        if Contains(p) {
          ChainBelow(vChain, p, nHeight);
          p := At(nHeight);
        } else {
          ghost var steps;
          p, steps := GetAncestor(p, nHeight);
        }
        if |vHave| > 10 {
          nStep := nStep * 2;
        }
      }
    }
  }

  ghost function HashesAt(b: BlockIndex, heights: seq<nat>): seq<nat>
    requires Linked(b)
  {
    if heights == [] then []
    else [if heights[0] <= b.nHeight then Ancestor(b, heights[0]).hash else 0] + HashesAt(b, heights[1..])
  }

  lemma LocatorNext(b: BlockIndex, h: nat, have: nat, step: nat)
    requires Linked(b) && h <= b.nHeight && step > 0
    ensures HashesAt(b, LocatorHeights(h, have, step)) ==
            [Ancestor(b, h).hash] +
            if h == 0 then []
            else HashesAt(b, LocatorHeights(if h - step > 0 then h - step else 0, have + 1, if have + 1 > 10 then 2 * step else step))
  {
    hide Ancestor;
  }

  lemma ChainBelow(c: seq<BlockIndex?>, b: BlockIndex, h: nat)
    requires c != [] && c[|c| - 1] != null && IsChainOf(c, c[|c| - 1])
    requires b.nHeight < |c| && c[b.nHeight] == b && h <= b.nHeight
    ensures Linked(b) && c[h] == Ancestor(b, h)
  {
    AncestorOfAncestor(c[|c| - 1], h, b.nHeight);
  }

  /** A locator starts at the block, goes strictly down, and ends with the genesis block. */
  lemma {:induction false} LocatorGoesDown(height: nat, have: nat, step: nat)
    requires step > 0
    ensures var l := LocatorHeights(height, have, step);
            && |l| > 0 && l[0] == height && l[|l| - 1] == 0
            && forall i, j | 0 <= i < j < |l| :: l[i] > l[j]
    decreases height
  {
    if height > 0 {
      var next := if height - step > 0 then height - step else 0;
      LocatorGoesDown(next, have + 1, if have + 1 > 10 then 2 * step else step);
    }
  }

  /** The step from entry `i` to the next: one block for the first eleven, then twice as many each time. */
  lemma {:induction false} LocatorSteps(height: nat, have: nat, step: nat, i: nat)
    requires step == Pow2(if have <= 10 then 0 else have - 10) && i + 1 < |LocatorHeights(height, have, step)|
    ensures var l, k := LocatorHeights(height, have, step), have + i;
            var far := Pow2(if k <= 10 then 0 else k - 10);
            l[i + 1] == if l[i] > far then l[i] - far else 0
    decreases height
  {
    if height > 0 {
      var next := if height - step > 0 then height - step else 0;
      LocatorGoesDown(next, have + 1, if have + 1 > 10 then 2 * step else step);
      if i > 0 {
        LocatorSteps(next, have + 1, if have + 1 > 10 then 2 * step else step, i - 1);
      }
    }
  }

  /** Once the steps double, the length is logarithmic in the distance. */
  lemma {:induction false} DoublingLength(height: nat, have: nat, step: nat, j: nat)
    requires step > 0 && have >= 10 && height < step * Pow2(j)
    ensures |LocatorHeights(height, have, step)| <= j + 2
    decreases height
  {
    if height > 0 {
      var next := if height - step > 0 then height - step else 0;
      if j == 0 {
        assert next == 0;
      } else {
        assert 2 * step * Pow2(j - 1) == step * (2 * Pow2(j - 1));
        DoublingLength(next, have + 1, 2 * step, j - 1);
      }
    }
  }

  /** A locator from a height below 2^j has at most j + 12 entries. */
  lemma {:induction false} LocatorLength(height: nat, have: nat, j: nat)
    requires have <= 10 && height < Pow2(j)
    ensures |LocatorHeights(height, have, 1)| <= j + 12 - have
    decreases height
  {
    if height > 0 {
      if have < 10 {
        LocatorLength(height - 1, have + 1, j);
      } else {
        DoublingLength(height, have, 1, j);
      }
    }
  }

  /** `c` lists the ancestors of `b` from height 0 up to `b` itself. */
  ghost predicate IsChainOf(c: seq<BlockIndex?>, b: BlockIndex) {
    Linked(b) && |c| == b.nHeight + 1 && forall i | 0 <= i < |c| :: c[i] == Ancestor(b, i)
  }

  /** Chains that share a block share everything below it. */
  lemma SharedBelow(was: seq<BlockIndex?>, b: BlockIndex, h: nat)
    requires was != [] && was[|was| - 1] != null && IsChainOf(was, was[|was| - 1])
    requires Linked(b) && h <= b.nHeight && h < |was| && was[h] == Ancestor(b, h)
    ensures forall i | 0 <= i <= h :: was[i] == Ancestor(b, i)
  {
    var tip := was[|was| - 1];
    forall i | 0 <= i <= h ensures was[i] == Ancestor(b, i) {
      AncestorOfAncestor(tip, i, h);
      AncestorOfAncestor(b, i, h);
    }
  }
}
