/** Greedy choice of the transactions of a block template (src/miner.cpp). */
module BlockAssembler {
  import opened Common
  import opened Mempool
  import opened Packages

  const MAX_BLOCK_WEIGHT := 8000000
  const MAX_BLOCK_SIGOPS_COST := 80000
  const MAX_CONSECUTIVE_FAILURES := 1000

  /** `CFeeRate::GetFee`, with division that truncates towards zero. */
  function GetFee(perK: int, size: int): int {
    var p := perK * size;
    var fee := if p >= 0 then p / 1000 else -((-p) / 1000);
    if fee == 0 && size != 0 then (if perK > 0 then 1 else if perK < 0 then -1 else 0) else fee
  }

  /** The fee for a size at a rate per 1000: rounded down, but at least 1 unless rate or size is 0, and the same
      for negative rates with the sign changed. */
  lemma FeeIsRate(perK: int, size: int)
    requires 0 <= perK && 0 <= size
    ensures perK > 0 && size > 0 && perK * size < 1000 ==> GetFee(perK, size) == 1
    ensures perK * size >= 1000 || perK == 0 || size == 0 ==>
              1000 * GetFee(perK, size) <= perK * size < 1000 * (GetFee(perK, size) + 1)
    ensures GetFee(-perK, size) == -GetFee(perK, size)
  {
    assert -perK * size == -(perK * size);
    if perK > 0 && size > 0 {
      assert perK * size > 0;
    }
  }

  // ---------------------------------------------------------------- SortForBlock

  /** `CompareTxIterByAncestorCount`. */
  predicate Precedes(pool: Pool, a: TxId, b: TxId)
    requires a in pool && b in pool
  {
    if pool[a].countWithAnc != pool[b].countWithAnc then pool[a].countWithAnc < pool[b].countWithAnc else a < b
  }

  ghost predicate Sorted(pool: Pool, s: seq<TxId>) {
    && (forall i | 0 <= i < |s| :: s[i] in pool)
    && (forall i, j | 0 <= i < j < |s| :: Precedes(pool, s[i], s[j]))
  }

  method SortForBlock(pool: Pool, package: set<TxId>) returns (sorted: seq<TxId>)
    requires package <= pool.Keys
    ensures Elems(sorted) == package && Sorted(pool, sorted)
    ensures forall i, j | 0 <= i < j < |sorted| ::
              var a, b := pool[sorted[i]].countWithAnc, pool[sorted[j]].countWithAnc; a < b || (a == b && sorted[i] < sorted[j])
  {
    sorted := [];
    var todo := package;
    while todo != {}
      invariant todo <= package && Elems(sorted) == package - todo && Sorted(pool, sorted)
      invariant forall i, t | 0 <= i < |sorted| && t in todo :: Precedes(pool, sorted[i], t)
      decreases todo
    {
      var least := First(pool, todo);
      ElemsAppend(sorted, least);
      sorted := sorted + [least];
      todo := todo - {least};
    }
  }

  method First(pool: Pool, txs: set<TxId>) returns (least: TxId)
    requires txs <= pool.Keys && txs != {}
    ensures least in txs && forall t | t in txs && t != least :: Precedes(pool, least, t)
  {
    least :| least in txs;
    var todo := txs - {least};
    while todo != {}
      invariant todo <= txs && least in txs
      invariant forall t | t in txs && t !in todo && t != least :: Precedes(pool, least, t)
      decreases todo
    {
      var t :| t in todo;
      if Precedes(pool, t, least) {
        least := t;
      }
      todo := todo - {t};
    }
  }

  lemma FamilyIsClosed(pool: Pool, d: TxId, t: TxId)
    requires WellFormed(pool) && d in pool && t in Family(pool, d)
    ensures t in pool && pool[t].anc <= Family(pool, d)
  {
    hide Sum;
    assert EntryOk(pool, d);
  }

  /** Sorting by the number of ancestors is enough: whatever a package transaction needs is already in
      the block or earlier in the package. */
  lemma ParentsFirst(pool: Pool, inBlock: set<TxId>, d: TxId, sorted: seq<TxId>, i: nat)
    requires WellFormed(pool) && d in pool && Closed(pool, inBlock)
    requires Elems(sorted) == Rest(pool, inBlock, d) && Sorted(pool, sorted) && i < |sorted|
    ensures pool[sorted[i]].anc <= inBlock + Elems(sorted[..i])
  {
    hide WellFormed;
    var t := sorted[i];
    assert t in Elems(sorted);
    FamilyIsClosed(pool, d, t);
    forall a | a in pool[t].anc ensures a in inBlock + Elems(sorted[..i]) {
      AncestorsComeFirst(pool, a, t);
      assert a in Family(pool, d);
      if a !in inBlock {
        assert a in Elems(sorted);
        var k :| 0 <= k < |sorted| && sorted[k] == a;
        assert k < i;
        assert sorted[..i][k] == a;
      }
    }
  }

  // ---------------------------------------------------------------- the block under construction

  /** Every transaction comes after all its ancestors. */
  ghost predicate ParentsBefore(pool: Pool, vtx: seq<TxId>) {
    forall j | 0 <= j < |vtx| :: vtx[j] in pool && pool[vtx[j]].anc <= Elems(vtx[..j])
  }

  lemma AppendOne(pool: Pool, vtx: seq<TxId>, t: TxId)
    requires ParentsBefore(pool, vtx) && NoDuplicates(vtx)
    requires t in pool && t !in vtx && pool[t].anc <= Elems(vtx)
    ensures ParentsBefore(pool, vtx + [t]) && NoDuplicates(vtx + [t])
    ensures Elems(vtx + [t]) == Elems(vtx) + {t}
  {
    forall j | 0 <= j < |vtx + [t]| ensures (vtx + [t])[j] in pool && pool[(vtx + [t])[j]].anc <= Elems((vtx + [t])[..j]) {
      assert (vtx + [t])[..j] == vtx[..j];
      if j == |vtx| {
        assert vtx[..j] == vtx;
      }
    }
  }

  lemma BlockIsClosed(pool: Pool, vtx: seq<TxId>)
    requires ParentsBefore(pool, vtx)
    ensures Closed(pool, Elems(vtx))
  {
    forall t | t in Elems(vtx) ensures t in pool && pool[t].anc <= Elems(vtx) {
      var j :| 0 <= j < |vtx| && vtx[j] == t;
      assert Elems(vtx[..j]) <= Elems(vtx);
    }
  }

  /** The candidates in the order of the pool's ancestor score, each once. */
  ghost predicate ScoreOrder(pool: Pool, order: seq<TxId>) {
    && Elems(order) == pool.Keys
    && forall i, j | 0 <= i < j < |order| ::
         order[i] in pool && order[j] in pool && Better(Cached(pool[order[i]]), order[i], Cached(pool[order[j]]), order[j])
  }

  ghost predicate PaysRate(pool: Pool, perK: int, txs: set<TxId>) {
    txs <= pool.Keys && Sum(pool, Fee, txs) >= GetFee(perK, Sum(pool, Size, txs))
  }

  /** A choice: the transaction whose package was taken, the length of the block then, and the totals kept. */
  datatype Pick = Pick(iter: TxId, n: nat, modified: map<TxId, Mod>)

  /** The number of updates made for the packages after the first entry of the history. */
  ghost function UpdateCount(pool: Pool, h: History): nat {
    if |h| <= 1 then 0 else var n := |h| - 1; UpdateCount(pool, h[..n]) + Touches(pool, h[n], h[n])
  }

  lemma NoUpdates(pool: Pool, first: set<TxId>)
    ensures UpdateCount(pool, [first]) == 0
  {
  }

  lemma UpdateCountNext(pool: Pool, h: History, package: set<TxId>)
    requires h != []
    ensures UpdateCount(pool, h + [package]) == UpdateCount(pool, h) + Touches(pool, package, package)
  {
    assert (h + [package])[..|h|] == h;
  }

  datatype Outcome = Exhausted | FeeTooLow | GaveUp

  class BlockAssembler {
    const pool: Pool
    const order: seq<TxId>
    const nBlockMaxWeight: int
    const blockMinFeeRate: int
    const fIncludeWitness: bool
    var inBlock: set<TxId>
    var vtx: seq<TxId>
    var vTxFees: seq<int>
    var vTxSigOpsCost: seq<int>
    var nBlockWeight: int
    var nBlockSigOpsCost: int
    var nBlockTx: int
    var nFees: int

    /** The accounts agree with the transactions chosen, which are in a valid order. */
    ghost predicate Valid()
      reads this
    {
      && WellFormed(pool) && ScoreOrder(pool, order)
      && 4000 <= nBlockMaxWeight <= MAX_BLOCK_WEIGHT - 4000
      && inBlock == Elems(vtx) && ParentsBefore(pool, vtx) && NoDuplicates(vtx)
      && Accounts()
    }

    ghost predicate Accounts()
      reads this
    {
      && inBlock <= pool.Keys
      && nBlockWeight == 4000 + Sum(pool, Weight, inBlock)
      && nBlockSigOpsCost == 400 + Sum(pool, Sigops, inBlock)
      && nFees == Sum(pool, Fee, inBlock)
      && nBlockTx == |vtx| == |vTxFees| == |vTxSigOpsCost|
      && forall j | 0 <= j < |vtx| :: vtx[j] in pool && vTxFees[j] == pool[vtx[j]].fee && vTxSigOpsCost[j] == pool[vtx[j]].sigops
    }

    /** The limits of the block; room for the coinbase is included. */
    ghost predicate WithinLimits()
      reads this
    {
      && nBlockWeight <= nBlockMaxWeight && (vtx != [] ==> nBlockWeight < nBlockMaxWeight)
      && nBlockSigOpsCost < MAX_BLOCK_SIGOPS_COST
      && forall t | t in inBlock :: t in pool && Allowed(t)
    }

    constructor (pool: Pool, order: seq<TxId>, maxWeight: nat, minFeeRate: int, includeWitness: bool)
      requires WellFormed(pool) && ScoreOrder(pool, order)
      ensures Valid() && WithinLimits() && inBlock == {}
      ensures 4000 <= maxWeight <= MAX_BLOCK_WEIGHT - 4000 ==> nBlockMaxWeight == maxWeight
      ensures maxWeight < 4000 ==> nBlockMaxWeight == 4000
      ensures maxWeight > MAX_BLOCK_WEIGHT - 4000 ==> nBlockMaxWeight == MAX_BLOCK_WEIGHT - 4000
      ensures this.pool == pool && this.order == order && blockMinFeeRate == minFeeRate && fIncludeWitness == includeWitness
    {
      this.pool, this.order := pool, order;
      var capped := if maxWeight < MAX_BLOCK_WEIGHT - 4000 then maxWeight else MAX_BLOCK_WEIGHT - 4000;
      nBlockMaxWeight := if capped < 4000 then 4000 else capped;
      blockMinFeeRate, fIncludeWitness := minFeeRate, includeWitness;
      inBlock, vtx, vTxFees, vTxSigOpsCost := {}, [], [], [];
      nBlockWeight, nBlockSigOpsCost, nBlockTx, nFees := 4000, 400, 0, 0;
    }

    predicate TestPackage(size: int, sigops: int)
      reads this
    {
      nBlockWeight + 4 * size < nBlockMaxWeight && nBlockSigOpsCost + sigops < MAX_BLOCK_SIGOPS_COST
    }

    predicate Allowed(t: TxId)
      requires t in pool
    {
      pool[t].isFinal && (fIncludeWitness || !pool[t].hasWitness)
    }

    method TestPackageTransactions(package: set<TxId>) returns (ok: bool)
      requires package <= pool.Keys
      ensures ok <==> forall t | t in package :: Allowed(t)
      ensures ok <==> forall t | t in package :: pool[t].isFinal && (pool[t].hasWitness ==> fIncludeWitness)
    {
      var todo := package;
      while todo != {}
        invariant todo <= package && forall t | t in package - todo :: Allowed(t)
        decreases todo
      {
        var t :| t in todo;
        if !Allowed(t) {
          return false;
        }
        todo := todo - {t};
      }
      return true;
    }

    method AddToBlock(t: TxId)
      requires Valid() && t in pool && t !in inBlock && pool[t].anc <= inBlock
      modifies this
      ensures Valid() && inBlock == old(inBlock) + {t} && vtx == old(vtx) + [t]
    {
      hide WellFormed, ScoreOrder, Sum, ParentsBefore, NoDuplicates;
      AppendOne(pool, vtx, t);
      assert inBlock + {t} - {t} == inBlock;
      SumWithout(pool, Weight, inBlock + {t}, t);
      SumWithout(pool, Sigops, inBlock + {t}, t);
      SumWithout(pool, Fee, inBlock + {t}, t);
      vtx := vtx + [t];
      vTxFees := vTxFees + [pool[t].fee];
      vTxSigOpsCost := vTxSigOpsCost + [pool[t].sigops];
      nBlockWeight := nBlockWeight + pool[t].weight;
      nBlockTx := nBlockTx + 1;
      nBlockSigOpsCost := nBlockSigOpsCost + pool[t].sigops;
      nFees := nFees + pool[t].fee;
      inBlock := inBlock + {t};
    }

    /** `onlyUnconfirmed` and the insertion of the entry itself. */
    method Unconfirmed(iter: TxId) returns (package: set<TxId>)
      requires Valid() && iter in pool && iter !in inBlock
      ensures package == Rest(pool, inBlock, iter) && package <= pool.Keys
    {
      hide WellFormed, Sum, ScoreOrder, ParentsBefore, NoDuplicates, Accounts;
      FamilyInPool(pool, iter);
      package := pool[iter].anc;
      var todo := package;
      while todo != {}
        invariant todo <= pool[iter].anc && package == (pool[iter].anc - inBlock) + todo
        decreases todo
      {
        var t :| t in todo;
        todo := todo - {t};
        if t in inBlock {
          package := package - {t};
        }
      }
      package := package + {iter};
    }

    /** Adds a sorted package, erasing its transactions from the modified set. */
    method AddPackage(iter: TxId, sorted: seq<TxId>, modified: map<TxId, Mod>) returns (m: map<TxId, Mod>)
      requires Valid() && iter in pool
      requires Elems(sorted) == Rest(pool, inBlock, iter) && Sorted(pool, sorted)
      modifies this
      ensures Valid() && inBlock == old(inBlock) + Elems(sorted) && vtx == old(vtx) + sorted
      ensures m == modified - Elems(sorted)
    {
      hide WellFormed, Sum, ScoreOrder, ParentsBefore, NoDuplicates, Accounts;
      BlockIsClosed(pool, vtx);
      m := modified;
      for i := 0 to |sorted|
        invariant Valid() && inBlock == old(inBlock) + Elems(sorted[..i]) && vtx == old(vtx) + sorted[..i]
        invariant m == modified - Elems(sorted[..i])
      {
        ParentsFirst(pool, old(inBlock), iter, sorted, i);
        NotBefore(pool, sorted, i);
        assert sorted[i] in Elems(sorted);
        AddToBlock(sorted[i]);
        m := m - {sorted[i]};
        ElemsAppend(sorted[..i], sorted[i]);
        assert sorted[..i + 1] == sorted[..i] + [sorted[i]];
      }
      assert sorted[..|sorted|] == sorted;
    }

    /** Why `d` was left out: next to the transactions `b` the rest of its package did not fit, or held
        a transaction that may not be mined. */
    ghost predicate Refused(b: set<TxId>, d: TxId) {
      && WellFormed(pool) && b <= pool.Keys && d in pool
      && (FamilyInPool(pool, d);
          || 4000 + Sum(pool, Weight, b) + 4 * Sum(pool, Size, Rest(pool, b, d)) >= nBlockMaxWeight
          || 400 + Sum(pool, Sigops, b) + Sum(pool, Sigops, Rest(pool, b, d)) >= MAX_BLOCK_SIGOPS_COST
          || exists t | t in Rest(pool, b, d) :: !pool[t].isFinal || (pool[t].hasWitness && !fIncludeWitness))
    }

    /** `d` was refused next to some earlier part of the block `txs`. */
    ghost predicate LeftOut(txs: seq<TxId>, d: TxId) {
      exists k | 0 <= k <= |txs| :: Refused(Elems(txs[..k]), d)
    }

    lemma StaysLeftOut(txs: seq<TxId>, more: seq<TxId>, d: TxId)
      requires LeftOut(txs, d)
      ensures LeftOut(txs + more, d)
    {
      var k :| 0 <= k <= |txs| && Refused(Elems(txs[..k]), d);
      assert (txs + more)[..k] == txs[..k];
    }

    /** A package that fails a test with exact totals is refused. */
    lemma FailedIsRefused(d: TxId, m: Mod)
      requires Valid() && d in pool && Equal(pool, inBlock, d, m) && Family(pool, d) <= pool.Keys
      requires !TestPackage(m.size, m.sigops) || exists t | t in Rest(pool, inBlock, d) :: !Allowed(t)
      ensures LeftOut(vtx, d)
    {
      hide WellFormed, Sum, ScoreOrder, ParentsBefore, NoDuplicates;
      assert vtx[..|vtx|] == vtx;
      assert Refused(inBlock, d);
    }

    /** What the selection loop keeps. `refused` holds every entry whose exact package was refused. */
    ghost predicate Loop(h: History, modified: map<TxId, Mod>, failed: set<TxId>, refused: set<TxId>, mi: nat)
      reads this
    {
      && Valid() && WithinLimits()
      && All(h) == inBlock && Bounded(pool, inBlock, modified) && Exact(pool, h, modified, failed)
      && mi <= |order| && failed <= refused
      && Considered(modified, refused, mi)
      && forall d | d in refused :: LeftOut(vtx, d)
    }

    /** Nothing before `mi` in the pool's order is overlooked. */
    ghost predicate Considered(modified: map<TxId, Mod>, refused: set<TxId>, mi: nat)
      requires mi <= |order|
      reads this
    {
      forall k | 0 <= k < mi :: order[k] in inBlock || order[k] in modified || order[k] in refused
    }

    /** The next package: the best of the modified set and of what is left of the pool's order. */
    method ChooseNext(modified: map<TxId, Mod>, mi: nat) returns (iter: TxId, m: Mod, usingModified: bool)
      requires Valid() && Bounded(pool, inBlock, modified) && mi <= |order|
      requires mi == |order| ==> modified != map[]
      requires mi < |order| ==> order[mi] !in modified && order[mi] !in inBlock
      ensures iter in pool && iter !in inBlock && m == Base(pool, modified, iter)
      ensures if usingModified then iter in modified else mi < |order| && iter == order[mi] && iter !in modified
      ensures forall t | t in modified && t != iter :: Better(m, iter, modified[t], t)
      ensures forall k | mi <= k < |order| && order[k] != iter ::
                order[k] in pool && Better(m, iter, Cached(pool[order[k]]), order[k])
    {
      hide WellFormed, Sum, ParentsBefore, NoDuplicates, Accounts;
      PositiveSizes(pool, inBlock, modified);
      usingModified := false;
      if modified == map[] {
        iter := order[mi];
        assert iter in Elems(order);
        m := Cached(pool[iter]);
      } else {
        var best := BestModified(modified);
        if mi == |order| {
          iter, m, usingModified := best, modified[best], true;
        } else {
          var next := order[mi];
          assert next in Elems(order);
          if Better(modified[best], best, Cached(pool[next]), next) {
            iter, m, usingModified := best, modified[best], true;
            forall k | mi <= k < |order| && order[k] != iter
              ensures order[k] in pool && Better(m, iter, Cached(pool[order[k]]), order[k])
            {
              assert order[k] in Elems(order);
              if k != mi {
                BetterIsTransitive(m, iter, Cached(pool[next]), next, Cached(pool[order[k]]), order[k]);
              }
            }
          } else {
            iter, m := next, Cached(pool[next]);
            BetterIsTotal(modified[best], best, m, next);
            forall t | t in modified && t != iter ensures Better(m, iter, modified[t], t) {
              if t != best {
                BetterIsTransitive(m, iter, modified[best], best, modified[t], t);
              }
            }
          }
        }
      }
    }

    /** A package that passes the tests goes into the block within the limits, and the totals of its
        descendants follow. */
    method CommitPackage(iter: TxId, ghost m: Mod, package: set<TxId>, modified: map<TxId, Mod>, ghost failed: set<TxId>,
                         ghost h: History)
      returns (r: map<TxId, Mod>, n: nat)
      requires Valid() && WithinLimits() && iter in pool && iter !in inBlock && All(h) == inBlock
      requires Bounded(pool, inBlock, modified) && Exact(pool, h, modified, failed)
      requires package == Rest(pool, inBlock, iter) && package <= pool.Keys && AtLeast(pool, inBlock, iter, m)
      requires TestPackage(m.size, m.sigops) && forall t | t in package :: Allowed(t)
      modifies this
      ensures Valid() && WithinLimits() && inBlock == old(inBlock) + package && old(vtx) < vtx
      ensures All(h + [package]) == inBlock && Bounded(pool, inBlock, r) && Exact(pool, h + [package], r, failed)
      ensures forall d | d in modified && d !in package :: d in r
      ensures n == Touches(pool, package, package)
    {
      hide WellFormed, Sum, ScoreOrder, ParentsBefore, NoDuplicates, AtLeast, Equal, FeesKept, Touches, All, UpdatedAt;
      BlockIsClosed(pool, vtx);
      ghost var before := inBlock;
      var sorted := SortForBlock(pool, package);
      EraseKeeps(pool, h, modified, failed, package);
      FitsTogether(pool, before, iter, m);
      var erased := AddPackage(iter, sorted, modified);
      assert iter in package;
      r, n := UpdatePackagesForAdded(pool, package, erased);
      UpdateKeeps(pool, h, package, failed + package, erased, r);
      StillModified(pool, package, erased, r);
    }

    /** A considered package is never smaller than what would be added, and exact unless the entry
        was refused before. */
    lemma RefusalIsJust(h: History, iter: TxId, m: Mod, modified: map<TxId, Mod>, failed: set<TxId>, refused: set<TxId>, mi: nat)
      requires Loop(h, modified, failed, refused, mi) && iter in pool && iter !in inBlock && m == Base(pool, modified, iter)
      requires Family(pool, iter) <= pool.Keys
      requires !TestPackage(m.size, m.sigops) || exists t | t in Rest(pool, inBlock, iter) :: !Allowed(t)
      ensures LeftOut(vtx, iter)
    {
      hide WellFormed, Sum, Equal, FeesKept, AtLeast, LeftOut;
      BaseIsRight(pool, h, modified, failed, iter);
      if iter !in failed {
        FailedIsRefused(iter, m);
      }
    }

    lemma SkipKeeps(h: History, modified: map<TxId, Mod>, failed: set<TxId>, refused: set<TxId>, mi: nat)
      requires Loop(h, modified, failed, refused, mi) && mi < |order|
      requires order[mi] in modified || order[mi] in inBlock || order[mi] in failed
      ensures Loop(h, modified, failed, refused, mi + 1)
    {
      hide WellFormed, Sum, ScoreOrder, ParentsBefore, NoDuplicates, Bounded, Exact, LeftOut, Accounts;
    }

    /** Refusing a package from the pool's order moves past it. */
    lemma RefuseKeeps(h: History, iter: TxId, m: Mod, modified: map<TxId, Mod>, failed: set<TxId>, refused: set<TxId>, mi: nat)
      requires Loop(h, modified, failed, refused, mi) && iter in pool && iter !in inBlock && m == Base(pool, modified, iter)
      requires Family(pool, iter) <= pool.Keys
      requires !TestPackage(m.size, m.sigops) || exists t | t in Rest(pool, inBlock, iter) :: !Allowed(t)
      ensures iter in modified ==> Loop(h, modified - {iter}, failed + {iter}, refused + {iter}, mi)
      ensures mi < |order| && iter == order[mi] ==> Loop(h, modified, failed, refused + {iter}, mi + 1)
    {
      hide WellFormed, Sum, ScoreOrder, ParentsBefore, NoDuplicates, LeftOut, Accounts, AtLeast, Equal, FeesKept;
      RefusalIsJust(h, iter, m, modified, failed, refused, mi);
      EraseKeeps(pool, h, modified, failed, {iter});
    }

    /** One package that passes the tests, with what the loop keeps. */
    method Select(iter: TxId, m: Mod, package: set<TxId>, modified: map<TxId, Mod>, ghost failed: set<TxId>,
                  ghost refused: set<TxId>, ghost mi: nat, ghost h: History, ghost picks: seq<Pick>)
      returns (r: map<TxId, Mod>, n: nat)
      requires Loop(h, modified, failed, refused, mi) && iter in pool && iter !in inBlock && m == Base(pool, modified, iter)
      requires package == Rest(pool, inBlock, iter) && package <= pool.Keys
      requires TestPackage(m.size, m.sigops) && forall t | t in package :: Allowed(t)
      requires Picks(vtx, h, picks) && Best(vtx, h, modified, iter) && PaysEnough(m)
      modifies this
      ensures Picks(vtx, h + [package], picks + [Pick(iter, old(|vtx|), modified)]) && n == Touches(pool, package, package)
      ensures Loop(h + [package], r, failed, refused, mi) && old(vtx) < vtx && inBlock == old(inBlock) + package
      ensures mi < |order| && iter == order[mi] ==> Loop(h + [package], r, failed, refused, mi + 1)
    {
      hide WellFormed, Sum, ScoreOrder, ParentsBefore, NoDuplicates, Equal, FeesKept, AtLeast, LeftOut, Accounts;
      hide Best, Picked, PaysEnough, Touches, All, UpdatedAt, Exact, Bounded;
      BaseIsRight(pool, h, modified, failed, iter);
      ghost var txs := vtx;
      r, n := CommitPackage(iter, m, package, modified, failed, h);
      assert txs + vtx[|txs|..] == vtx;
      PicksGrow(txs, vtx[|txs|..], h, package, picks, Pick(iter, |txs|, modified));
      forall d | d in refused ensures LeftOut(vtx, d) {
        StaysLeftOut(txs, vtx[|txs|..], d);
      }
      assert iter in package;
    }

    lemma NothingOverlooked(h: History, failed: set<TxId>, refused: set<TxId>)
      requires Loop(h, map[], failed, refused, |order|)
      ensures forall d | d in pool && d !in inBlock :: LeftOut(vtx, d)
    {
      hide LeftOut;
      forall d | d in pool && d !in inBlock ensures LeftOut(vtx, d) {
        assert d in Elems(order);
        var k :| 0 <= k < |order| && order[k] == d;
      }
    }

    /** Next to the block `txs`, of all transactions that are neither in it nor were refused none has a higher
        fee rate than `best`. The sizes and sigops compared are those of what remains of their packages; the
        fees are too, apart from the changed fees that stay counted. */
    ghost predicate Best(txs: seq<TxId>, h: History, modified: map<TxId, Mod>, best: TxId) {
      && WellFormed(pool) && All(h) == Elems(txs) && best in pool && best !in txs
      && AtLeast(pool, Elems(txs), best, Base(pool, modified, best))
      && forall d | d in pool && d !in txs && !LeftOut(txs, d) ::
           var b := Base(pool, modified, d);
           && Equal(pool, Elems(txs), d, b) && FeesKept(pool, h, d, b.modFees)
           && (d == best || Better(Base(pool, modified, best), best, b, d))
    }

    ghost predicate PaysEnough(m: Mod) {
      m.modFees >= GetFee(blockMinFeeRate, m.size)
    }

    /** The best package pays too little. */
    ghost predicate NothingBetter(h: History, modified: map<TxId, Mod>, stop: TxId)
      reads this
    {
      Best(vtx, h, modified, stop) && !PaysEnough(Base(pool, modified, stop))
    }

    /** Package `j` of the history was the best next to the block of that time, and pays enough. */
    ghost predicate Picked(txs: seq<TxId>, h: History, j: nat, pick: Pick)
      requires j + 1 < |h|
    {
      && pick.n <= |txs| && Best(txs[..pick.n], h[..j + 1], pick.modified, pick.iter)
      && PaysEnough(Base(pool, pick.modified, pick.iter))
      && h[j + 1] == Rest(pool, Elems(txs[..pick.n]), pick.iter)
    }

    /** Every package after the first entry of the history was picked. */
    ghost predicate Picks(txs: seq<TxId>, h: History, picks: seq<Pick>) {
      All(h) == Elems(txs) && |h| == |picks| + 1 && forall j: nat | j < |picks| :: Picked(txs, h, j, picks[j])
    }

    lemma NonePicked()
      requires Valid()
      ensures Picks(vtx, [inBlock], [])
    {
      hide WellFormed, ScoreOrder, ParentsBefore, NoDuplicates, Accounts;
      AllNext([], inBlock);
      assert [] + [inBlock] == [inBlock];
    }

    lemma PicksGrow(txs: seq<TxId>, more: seq<TxId>, h: History, package: set<TxId>, picks: seq<Pick>, pick: Pick)
      requires Picks(txs, h, picks) && pick.n == |txs| && Best(txs, h, pick.modified, pick.iter)
      requires PaysEnough(Base(pool, pick.modified, pick.iter)) && package == Rest(pool, Elems(txs), pick.iter)
      requires Elems(txs + more) == All(h + [package])
      ensures Picks(txs + more, h + [package], picks + [pick])
    {
      hide Best, PaysEnough, All, Base;
      var txs', h', picks' := txs + more, h + [package], picks + [pick];
      forall j: nat | j < |picks'| ensures Picked(txs', h', j, picks'[j]) {
        assert h'[..j + 1] == h[..j + 1];
        if j < |picks| {
          assert Picked(txs, h, j, picks[j]);
          assert txs'[..picks[j].n] == txs[..picks[j].n];
        } else {
          assert txs'[..|txs|] == txs && h[..j + 1] == h;
        }
      }
    }

    lemma ChosenIsBest(h: History, modified: map<TxId, Mod>, failed: set<TxId>, refused: set<TxId>, mi: nat, iter: TxId, m: Mod)
      requires Loop(h, modified, failed, refused, mi) && iter in pool && iter !in inBlock && m == Base(pool, modified, iter)
      requires forall t | t in modified && t != iter :: Better(m, iter, modified[t], t)
      requires forall k | mi <= k < |order| && order[k] != iter ::
                 order[k] in pool && Better(m, iter, Cached(pool[order[k]]), order[k])
      ensures Best(vtx, h, modified, iter)
    {
      hide WellFormed, Sum, ParentsBefore, NoDuplicates, LeftOut, Accounts, Better, Equal, AtLeast;
      BaseIsRight(pool, h, modified, failed, iter);
      forall d | d in pool && d !in vtx && !LeftOut(vtx, d)
        ensures var b := Base(pool, modified, d);
                Equal(pool, inBlock, d, b) && FeesKept(pool, h, d, b.modFees) && (d == iter || Better(m, iter, b, d))
      {
        BaseIsRight(pool, h, modified, failed, d);
        assert d in Elems(order);
        var k :| 0 <= k < |order| && order[k] == d;
      }
    }

    /** The fees of package `j` of the history, with the changed fees that stay counted, are those of its size. */
    ghost predicate PackagePays(h: History, j: nat, iter: TxId) {
      && WellFormed(pool) && j + 1 < |h| && h[j + 1] <= pool.Keys && iter in pool
      && (FamilyInPool(pool, iter);
          var later := Later(pool, h[..j + 1], iter);
          Sum(pool, ModFee, h[j + 1]) + Sum(pool, ModFee, later) - Sum(pool, Fee, later)
          >= GetFee(blockMinFeeRate, Sum(pool, Size, h[j + 1])))
    }

    /** What was picked before it was ever refused pays the minimum fee for its true size. */
    lemma PicksPay(txs: seq<TxId>, h: History, picks: seq<Pick>)
      requires Picks(txs, h, picks)
      ensures forall j: nat | j < |picks| && !LeftOut(txs[..picks[j].n], picks[j].iter) ::
                PackagePays(h, j, picks[j].iter) && (Unprioritised(pool) ==> PaysRate(pool, blockMinFeeRate, h[j + 1]))
    {
      hide WellFormed, Sum, LeftOut, Better, GetFee, AtLeast, All;
      forall j: nat | j < |picks| && !LeftOut(txs[..picks[j].n], picks[j].iter)
        ensures PackagePays(h, j, picks[j].iter) && (Unprioritised(pool) ==> PaysRate(pool, blockMinFeeRate, h[j + 1]))
      {
        var pick := picks[j];
        assert Picked(txs, h, j, pick);
        FamilyInPool(pool, pick.iter);
        assert Equal(pool, Elems(txs[..pick.n]), pick.iter, Base(pool, pick.modified, pick.iter));
        if Unprioritised(pool) {
          SameFees(pool, Later(pool, h[..j + 1], pick.iter));
          SameFees(pool, h[j + 1]);
        }
      }
    }

    /** The transactions refused for their size or sigops since the block last grew; none is considered again. */
    ghost predicate Recent(recent: set<TxId>, modified: map<TxId, Mod>, failed: set<TxId>, refused: set<TxId>, mi: nat)
      reads this
    {
      && recent <= refused && recent !! inBlock
      && forall d | d in recent :: d !in modified && (d in failed || forall k | mi <= k < |order| :: order[k] != d)
    }

    lemma RecentGrows(recent: set<TxId>, modified: map<TxId, Mod>, failed: set<TxId>, refused: set<TxId>, mi: nat, iter: TxId)
      requires ScoreOrder(pool, order) && Recent(recent, modified, failed, refused, mi) && iter !in inBlock
      requires iter in modified || (mi < |order| && iter == order[mi] && iter !in failed && iter !in modified)
      ensures |recent + {iter}| == |recent| + 1
      ensures iter in modified ==> Recent(recent + {iter}, modified - {iter}, failed + {iter}, refused + {iter}, mi)
      ensures iter !in modified ==> Recent(recent + {iter}, modified, failed, refused + {iter}, mi + 1)
    {
      assert iter !in recent;
      if iter !in modified {
        forall k | mi + 1 <= k < |order| ensures order[k] != iter {
          assert Better(Cached(pool[order[mi]]), order[mi], Cached(pool[order[k]]), order[k]);
        }
      }
    }

    lemma RecentStays(recent: set<TxId>, modified: map<TxId, Mod>, failed: set<TxId>, refused: set<TxId>, mi: nat, iter: TxId)
      requires Recent(recent, modified, failed, refused, mi)
      ensures Recent(recent, modified, failed, refused, mi + 1)
      ensures Recent(recent, modified - {iter}, failed + {iter}, refused + {iter}, mi)
      ensures Recent(recent, modified, failed, refused + {iter}, mi + 1)
    {
    }

    lemma NoneRecent(modified: map<TxId, Mod>, failed: set<TxId>, refused: set<TxId>, mi: nat)
      ensures Recent({}, modified, failed, refused, mi)
    {
    }

    /** More transactions than allowed in a row were refused and are not in the block. */
    ghost predicate Failures(txs: set<TxId>)
      reads this
    {
      |txs| > MAX_CONSECUTIVE_FAILURES && txs !! inBlock && forall d | d in txs :: LeftOut(vtx, d)
    }

    ghost predicate ManyFailed()
      reads this
    {
      exists txs :: Failures(txs)
    }

    lemma GivesUpRightly(h: History, modified: map<TxId, Mod>, failed: set<TxId>, refused: set<TxId>, mi: nat, recent: set<TxId>)
      requires Loop(h, modified, failed, refused, mi) && Recent(recent, modified, failed, refused, mi)
      requires |recent| > MAX_CONSECUTIVE_FAILURES
      ensures ManyFailed()
    {
      hide WellFormed, Valid, Bounded, Exact, Considered, LeftOut, WithinLimits;
      assert Failures(recent);
    }

    /** The update for what is in the block before the selection starts. */
    method FirstUpdate() returns (modified: map<TxId, Mod>)
      requires Valid() && WithinLimits()
      ensures Loop([inBlock], modified, {}, {}, 0)
    {
      hide WellFormed, Sum, ScoreOrder, ParentsBefore, NoDuplicates, Accounts, Bounded, Exact, Updated, Closed, All, LeftOut;
      BlockIsClosed(pool, vtx);
      var n;
      modified, n := UpdatePackagesForAdded(pool, inBlock, map[]);
      UpdateFromEmpty(pool, inBlock, modified);
    }

    /** `addPackageTxs`. The block stays ordered, closed and within its limits. When the candidates run
        out, every transaction left out was refused with its true totals; when a package pays too little,
        no other that was not refused has a higher fee rate. Every package taken was the best of those not
        refused and pays the minimum fee. */
    method AddPackageTxs()
      returns (outcome: Outcome, nPackagesSelected: nat, nDescendantsUpdated: nat, ghost h: History, ghost picks: seq<Pick>,
               ghost last: map<TxId, Mod>, ghost stop: TxId)
      requires Valid() && WithinLimits()
      modifies this
      ensures Valid() && WithinLimits() && old(vtx) <= vtx
      ensures outcome == Exhausted ==> forall d | d in pool && d !in inBlock :: LeftOut(vtx, d)
      ensures outcome == FeeTooLow ==> NothingBetter(h, last, stop)
      ensures outcome == GaveUp ==> nBlockWeight > nBlockMaxWeight - 4000 && ManyFailed()
      ensures h != [] && h[0] == old(inBlock) && Picks(vtx, h, picks) && nPackagesSelected == |picks|
      ensures nDescendantsUpdated == UpdateCount(pool, h)
    {
      hide WellFormed, LeftOut, Bounded, Better, TestPackage, Allowed, GetFee, Base, Best, Picked, WithinLimits;
      hide Valid, Loop, Recent, ScoreOrder, Elems, All, ManyFailed, Picks, UpdateCount, Touches;
      nPackagesSelected, nDescendantsUpdated, h, picks, last, stop := 0, 0, [inBlock], [], map[], 0;
      var modified := FirstUpdate();
      var failed: set<TxId>, mi: nat, nConsecutiveFailed: nat := {}, 0, 0;
      ghost var refused: set<TxId>, recent: set<TxId> := {}, {};
      LoopBasics(h, modified, failed, refused, mi);
      NoneRecent(modified, failed, refused, mi);
      NonePicked();
      assert UpdateCount(pool, h) == 0 by { NoUpdates(pool, inBlock); }
      while mi < |order| || modified != map[]
        invariant Loop(h, modified, failed, refused, mi) && old(vtx) <= vtx
        invariant Picks(vtx, h, picks) && h != [] && h[0] == old(inBlock) && nPackagesSelected == |picks|
        invariant nDescendantsUpdated == UpdateCount(pool, h)
        invariant Recent(recent, modified, failed, refused, mi) && |recent| == nConsecutiveFailed
        decreases pool.Keys - inBlock, |order| - mi + |modified|
      {
        LoopBasics(h, modified, failed, refused, mi);
        if mi < |order| && (order[mi] in modified || order[mi] in inBlock || order[mi] in failed) {
          SkipKeeps(h, modified, failed, refused, mi);
          RecentStays(recent, modified, failed, refused, mi, order[mi]);
          mi := mi + 1;
          continue;
        }
        var iter, m, usingModified := ChooseNext(modified, mi);
        FamilyInPool(pool, iter);
        assert iter !in inBlock;
        ChosenIsBest(h, modified, failed, refused, mi, iter, m);
        if m.modFees < GetFee(blockMinFeeRate, m.size) {
          outcome, last, stop := FeeTooLow, modified, iter;
          return;
        }
        if !TestPackage(m.size, m.sigops) {
          RefuseKeeps(h, iter, m, modified, failed, refused, mi);
          RecentGrows(recent, modified, failed, refused, mi, iter);
          refused, recent := refused + {iter}, recent + {iter};
          if usingModified {
            modified := modified - {iter};
            failed := failed + {iter};
          } else {
            mi := mi + 1;
          }
          nConsecutiveFailed := nConsecutiveFailed + 1;
          if nConsecutiveFailed > MAX_CONSECUTIVE_FAILURES && nBlockWeight > nBlockMaxWeight - 4000 {
            GivesUpRightly(h, modified, failed, refused, mi, recent);
            outcome := GaveUp;
            return;
          }
          continue;
        }
        var package := Unconfirmed(iter);
        var ok := TestPackageTransactions(package);
        if !ok {
          RefuseKeeps(h, iter, m, modified, failed, refused, mi);
          RecentStays(recent, modified, failed, refused, mi, iter);
          refused := refused + {iter};
          if usingModified {
            modified := modified - {iter};
            failed := failed + {iter};
          } else {
            mi := mi + 1;
          }
          continue;
        }
        nConsecutiveFailed := 0;
        assert iter in package;
        ghost var before, pick := inBlock, Pick(iter, |vtx|, modified);
        var n: nat;
        modified, n := Select(iter, m, package, modified, failed, refused, mi, h, picks);
        UpdateCountNext(pool, h, package);
        h, picks, recent := h + [package], picks + [pick], {};
        FewerLeft(pool.Keys, before, package, iter);
        if !usingModified {
          mi := mi + 1;
        }
        NoneRecent(modified, failed, refused, mi);
        nPackagesSelected := nPackagesSelected + 1;
        nDescendantsUpdated := nDescendantsUpdated + n;
      }
      outcome := Exhausted;
      LoopBasics(h, modified, failed, refused, mi);
      NothingOverlooked(h, failed, refused);
    }

    lemma LoopBasics(h: History, modified: map<TxId, Mod>, failed: set<TxId>, refused: set<TxId>, mi: nat)
      requires Loop(h, modified, failed, refused, mi)
      ensures Valid() && WithinLimits() && WellFormed(pool) && mi <= |order| && Bounded(pool, inBlock, modified)
      ensures failed <= refused && ScoreOrder(pool, order) && All(h) == inBlock == Elems(vtx)
    {
      hide WellFormed, Bounded, Exact, Considered, LeftOut, Accounts;
    }
  }

  /** The selection part of `CreateNewBlock`: what every block template satisfies. */
  method CreateNewBlock(pool: Pool, order: seq<TxId>, maxWeight: nat, minFeeRate: int, includeWitness: bool)
    returns (vtx: seq<TxId>, nFees: int, weight: int, sigops: int, ghost a: BlockAssembler, ghost h: History, ghost picks: seq<Pick>)
    requires WellFormed(pool) && ScoreOrder(pool, order)
    ensures ParentsBefore(pool, vtx) && NoDuplicates(vtx) && Closed(pool, Elems(vtx))
    ensures nFees == Sum(pool, Fee, Elems(vtx))
    ensures weight == 4000 + Sum(pool, Weight, Elems(vtx)) && sigops == 400 + Sum(pool, Sigops, Elems(vtx))
    ensures weight <= MAX_BLOCK_WEIGHT - 4000 && sigops < MAX_BLOCK_SIGOPS_COST
    ensures 4000 <= maxWeight ==> weight <= maxWeight
    ensures forall t | t in vtx :: pool[t].isFinal && (pool[t].hasWitness ==> includeWitness)
    ensures a.pool == pool && a.blockMinFeeRate == minFeeRate && a.fIncludeWitness == includeWitness
    ensures a.Picks(vtx, h, picks) && h[0] == {}
    ensures forall j: nat | j < |picks| && !a.LeftOut(vtx[..picks[j].n], picks[j].iter) ::
              a.PackagePays(h, j, picks[j].iter) && (Unprioritised(pool) ==> PaysRate(pool, minFeeRate, h[j + 1]))
  {
    hide WellFormed, Sum, ScoreOrder, ParentsBefore, NoDuplicates, BlockAssembler.Picks;
    var assembler := new BlockAssembler(pool, order, maxWeight, minFeeRate, includeWitness);
    var _, _, _, h', picks', _, _ := assembler.AddPackageTxs();
    a, h, picks := assembler, h', picks';
    assembler.PicksPay(assembler.vtx, h, picks);
    vtx, nFees := assembler.vtx, assembler.nFees;
    weight, sigops := assembler.nBlockWeight, assembler.nBlockSigOpsCost;
    BlockIsClosed(pool, vtx);
    assert forall t | t in vtx :: t in assembler.inBlock;
  }

  lemma UpdateFromEmpty(pool: Pool, added: set<TxId>, after: map<TxId, Mod>)
    requires WellFormed(pool) && Closed(pool, added) && Updated(pool, added, added, map[], after)
    ensures All([added]) == added && Bounded(pool, added, after) && Exact(pool, [added], after, {})
  {
    hide WellFormed, Sum, Updated;
    UpdateKeeps(pool, [], added, {}, map[], after);
    assert {} + added == added && [] + [added] == [added];
  }

  lemma StillModified(pool: Pool, added: set<TxId>, before: map<TxId, Mod>, after: map<TxId, Mod>)
    requires WellFormed(pool) && Updated(pool, added, added, before, after)
    ensures forall d | d in before :: d in after
  {
    hide WellFormed, TakenOff;
    forall d | d in before ensures d in after {
      assert UpdatedAt(pool, added, added, before, after, d);
    }
  }

  lemma FewerLeft(all: set<TxId>, before: set<TxId>, package: set<TxId>, iter: TxId)
    requires iter in package && iter in all && iter !in before
    ensures all - (before + package) < all - before
  {
    assert iter in all - before;
  }

  lemma PositiveSizes(pool: Pool, inBlock: set<TxId>, modified: map<TxId, Mod>)
    requires WellFormed(pool) && Bounded(pool, inBlock, modified)
    ensures forall t | t in modified :: 0 < modified[t].size
    ensures forall t | t in pool :: 0 < Cached(pool[t]).size
  {
    hide WellFormed, Sum;
    forall t | t in pool ensures 0 < Cached(pool[t]).size {
      CachedIsFamily(pool, t);
      HoldsSize(pool, t, Family(pool, t));
    }
    forall t | t in modified ensures 0 < modified[t].size {
      FamilyInPool(pool, t);
      HoldsSize(pool, t, Rest(pool, inBlock, t));
    }
  }

  lemma HoldsSize(pool: Pool, t: TxId, txs: set<TxId>)
    requires WellFormed(pool) && t in txs && txs <= pool.Keys
    ensures 0 < Sum(pool, Size, txs)
  {
    assert EntryOk(pool, t);
    SumWithout(pool, Size, txs, t);
    SumNonNegative(pool, Size, txs - {t});
  }

  /** The weight a package adds is covered by four times its size. */
  lemma FitsTogether(pool: Pool, inBlock: set<TxId>, d: TxId, m: Mod)
    requires WellFormed(pool) && inBlock <= pool.Keys && d in pool && AtLeast(pool, inBlock, d, m)
    ensures Family(pool, d) <= pool.Keys
    ensures Sum(pool, Weight, inBlock + Rest(pool, inBlock, d)) <= Sum(pool, Weight, inBlock) + 4 * m.size
    ensures Sum(pool, Sigops, inBlock + Rest(pool, inBlock, d)) <= Sum(pool, Sigops, inBlock) + m.sigops
  {
    hide WellFormed, Sum;
    FamilyInPool(pool, d);
    SumUnion(pool, Weight, inBlock, Rest(pool, inBlock, d));
    SumUnion(pool, Sigops, inBlock, Rest(pool, inBlock, d));
    WeightOfSize(pool, Rest(pool, inBlock, d));
  }

  lemma NotBefore(pool: Pool, sorted: seq<TxId>, i: nat)
    requires Sorted(pool, sorted) && i < |sorted|
    ensures sorted[i] in pool && sorted[i] !in Elems(sorted[..i])
  {
  }
}
