/** Packages of a transaction with its ancestors, the order they are tried in, and the totals of what
    remains of them while ancestors enter the block (src/miner.h, src/miner.cpp). */
module Packages {
  import opened Common
  import opened Mempool

  /** The totals of a package some of whose transactions may be in the block already. */
  datatype Mod = Mod(size: int, modFees: int, sigops: int)

  function Cached(e: Entry): Mod {
    Mod(e.sizeWithAnc, e.modFeesWithAnc, e.sigopsWithAnc)
  }

  // ---------------------------------------------------------------- the order of packages

  /** `CompareModifiedEntry` on package `a` of transaction `i` and package `b` of transaction `j`: the
      higher fee rate comes first, and the smaller id among equals. */
  predicate Better(a: Mod, i: TxId, b: Mod, j: TxId) {
    var f1 := a.modFees * b.size;
    var f2 := b.modFees * a.size;
    if f1 == f2 then i < j else f1 > f2
  }

  ghost function Rate(m: Mod): real
    requires 0 < m.size
  {
    m.modFees as real / m.size as real
  }

  /** The order is that of fee rates, and of ids among equal ones. */
  lemma BetterIsRate(a: Mod, i: TxId, b: Mod, j: TxId)
    requires 0 < a.size && 0 < b.size
    ensures Better(a, i, b, j) <==> Rate(a) > Rate(b) || (Rate(a) == Rate(b) && i < j)
  {
    var x, y := Rate(a), Rate(b);
    Cross(a.modFees as real, a.size as real, b.modFees as real, b.size as real);
    assert (a.modFees * b.size) as real == a.modFees as real * b.size as real;
    assert (b.modFees * a.size) as real == b.modFees as real * a.size as real;
  }

  lemma Cross(f: real, p: real, g: real, q: real)
    requires p > 0.0 && q > 0.0
    ensures f / p > g / q <==> f * q > g * p
    ensures f / p == g / q <==> f * q == g * p
  {
    var x, y, k := f / p, g / q, p * q;
    assert f == x * p && g == y * q;
    assert f * q == x * k && g * p == y * k;
    Scaled(x, y, k);
  }

  lemma Scaled(x: real, y: real, k: real)
    requires k > 0.0
    ensures x > y <==> x * k > y * k
    ensures x == y <==> x * k == y * k
  {
    if x > y {
      assert (x - y) * k > 0.0;
    } else if x < y {
      assert (y - x) * k > 0.0;
    }
  }

  lemma BetterIsTransitive(a: Mod, i: TxId, b: Mod, j: TxId, c: Mod, k: TxId)
    requires 0 < a.size && 0 < b.size && 0 < c.size
    requires Better(a, i, b, j) && Better(b, j, c, k)
    ensures Better(a, i, c, k)
  {
    var ab, ba := a.modFees * b.size, b.modFees * a.size;
    var bc, cb := b.modFees * c.size, c.modFees * b.size;
    var ac, ca := a.modFees * c.size, c.modFees * a.size;
    assert ab >= ba && bc >= cb;
    assert ac * b.size == ab * c.size && ca * b.size == cb * a.size;
    assert ab * c.size >= ba * c.size && ba * c.size == bc * a.size && bc * a.size >= cb * a.size;
    assert ac * b.size >= ca * b.size;
    if ac < ca {
      MulLess(ac, ca, b.size);
      assert false;
    }
    if ac == ca {
      assert ab * c.size == ba * c.size && bc * a.size == cb * a.size;
      assert ab == ba && bc == cb;
    }
  }

  lemma MulLess(x: int, y: int, k: int)
    requires x < y && 0 < k
    ensures x * k < y * k
  {
  }

  /** The first entry of the modified set in the order above. */
  method BestModified(m: map<TxId, Mod>) returns (best: TxId)
    requires m != map[] && forall t | t in m :: 0 < m[t].size
    ensures best in m
    ensures forall t | t in m && t != best :: Better(m[best], best, m[t], t)
  {
    assert m.Keys != {};
    best :| best in m.Keys;
    var todo := m.Keys - {best};
    while todo != {}
      invariant todo <= m.Keys && best in m && best !in todo
      invariant forall t | t in m && t !in todo && t != best :: Better(m[best], best, m[t], t)
      decreases todo
    {
      var t :| t in todo;
      if Better(m[t], t, m[best], best) {
        forall u | u in m && u !in todo && u != best ensures Better(m[t], t, m[u], u) {
          BetterIsTransitive(m[t], t, m[best], best, m[u], u);
        }
        best := t;
      } else {
        BetterIsTotal(m[t], t, m[best], best);
      }
      todo := todo - {t};
    }
  }

  lemma BetterIsTotal(a: Mod, i: TxId, b: Mod, j: TxId)
    requires i != j
    ensures Better(a, i, b, j) || Better(b, j, a, i)
  {
  }

  // ---------------------------------------------------------------- what remains of a package

  /** The transactions of the package of `d` that are not in the block. */
  ghost function Rest(pool: Pool, inBlock: set<TxId>, d: TxId): set<TxId>
    requires d in pool
  {
    Family(pool, d) - inBlock
  }

  /** The totals kept for `d` are not below those of what remains of its package. */
  ghost predicate AtLeast(pool: Pool, inBlock: set<TxId>, d: TxId, m: Mod)
    requires WellFormed(pool) && d in pool
  {
    FamilyInPool(pool, d);
    && m.size >= Sum(pool, Size, Rest(pool, inBlock, d))
    && m.sigops >= Sum(pool, Sigops, Rest(pool, inBlock, d))
  }

  ghost predicate Equal(pool: Pool, inBlock: set<TxId>, d: TxId, m: Mod)
    requires WellFormed(pool) && d in pool
  {
    FamilyInPool(pool, d);
    && m.size == Sum(pool, Size, Rest(pool, inBlock, d))
    && m.sigops == Sum(pool, Sigops, Rest(pool, inBlock, d))
  }

  lemma FamilyInPool(pool: Pool, d: TxId)
    requires WellFormed(pool) && d in pool
    ensures Family(pool, d) <= pool.Keys
  {
    assert EntryOk(pool, d);
  }

  /** No modified entry is in the block, and none is too small. */
  ghost predicate Bounded(pool: Pool, inBlock: set<TxId>, modified: map<TxId, Mod>)
    requires WellFormed(pool)
  {
    forall d | d in modified :: d in pool && d !in inBlock && AtLeast(pool, inBlock, d, modified[d])
  }

  /** The packages that entered the block, one after the other. */
  type History = seq<set<TxId>>

  ghost function All(h: History): set<TxId> {
    if h == [] then {} else All(h[..|h| - 1]) + h[|h| - 1]
  }

  lemma AllNext(h: History, added: set<TxId>)
    ensures All(h + [added]) == All(h) + added
  {
    assert (h + [added])[..|h|] == h;
  }

  /** The ancestor of `d` whose fee was the first to be taken off: the one with the least id in the first
      package that had any. */
  ghost function FirstOff(pool: Pool, h: History, d: TxId): Option<TxId>
    requires d in pool
  {
    if h == [] then None
    else
      var n := |h| - 1;
      var before := FirstOff(pool, h[..n], d);
      if before.None? && pool[d].anc * h[n] != {} then Some(Least(pool[d].anc * h[n])) else before
  }

  /** The ancestors of `d` in the block but for the first: what their fees were changed by stays counted. */
  ghost function Later(pool: Pool, h: History, d: TxId): set<TxId>
    requires d in pool
  {
    set a | a in pool[d].anc * All(h) && FirstOff(pool, h, d) != Some(a)
  }

  /** The fees kept for `d`: those of what remains of its package, and the changes that stay counted. */
  ghost predicate FeesKept(pool: Pool, h: History, d: TxId, fees: int)
    requires WellFormed(pool) && d in pool
  {
    FamilyInPool(pool, d);
    var later := Later(pool, h, d);
    fees == Sum(pool, ModFee, Rest(pool, All(h), d)) + Sum(pool, ModFee, later) - Sum(pool, Fee, later)
  }

  /** Entries that never failed are exact: in the modified set with the right totals, or not in it
      because nothing of their package is in the block. */
  ghost predicate Exact(pool: Pool, h: History, modified: map<TxId, Mod>, failed: set<TxId>)
    requires WellFormed(pool)
  {
    forall d | d in pool && d !in All(h) && d !in failed ::
      if d in modified then
        pool[d].anc * All(h) != {} && Equal(pool, All(h), d, modified[d]) && FeesKept(pool, h, d, modified[d].modFees)
      else pool[d].anc !! All(h)
  }

  /** The fees kept are right if and only if the changes of the later ancestors cancel out. */
  lemma KeptFeesAreExact(pool: Pool, h: History, d: TxId, fees: int)
    requires WellFormed(pool) && d in pool && FeesKept(pool, h, d, fees)
    ensures Family(pool, d) <= pool.Keys
    ensures fees == Sum(pool, ModFee, Rest(pool, All(h), d)) <==>
            Sum(pool, ModFee, Later(pool, h, d)) == Sum(pool, Fee, Later(pool, h, d))
    ensures Unprioritised(pool) ==> fees == Sum(pool, ModFee, Rest(pool, All(h), d))
  {
    hide WellFormed, Sum, FirstOff;
    FamilyInPool(pool, d);
    if Unprioritised(pool) {
      SameFees(pool, Later(pool, h, d));
    }
  }

  lemma {:induction false} FirstOffExists(pool: Pool, h: History, d: TxId)
    requires d in pool
    ensures FirstOff(pool, h, d).Some? <==> pool[d].anc * All(h) != {}
    ensures FirstOff(pool, h, d).Some? ==> FirstOff(pool, h, d).value in pool[d].anc * All(h)
  {
    if h != [] {
      var n := |h| - 1;
      FirstOffExists(pool, h[..n], d);
      assert pool[d].anc * All(h) == pool[d].anc * All(h[..n]) + pool[d].anc * h[n];
    }
  }

  /** What another package adds to the later ancestors. */
  lemma LaterNext(pool: Pool, h: History, d: TxId, added: set<TxId>)
    requires d in pool && added !! All(h)
    ensures var txs := pool[d].anc * added;
            Later(pool, h + [added], d) ==
            if pool[d].anc * All(h) != {} || txs == {} then Later(pool, h, d) + txs else txs - {Least(txs)}
  {
    FirstOffExists(pool, h, d);
    AllNext(h, added);
    assert (h + [added])[..|h|] == h;
    hide All;
  }

  ghost predicate Closed(pool: Pool, txs: set<TxId>) {
    txs <= pool.Keys && forall t | t in txs :: pool[t].anc <= txs
  }

  // ---------------------------------------------------------------- UpdatePackagesForAdded

  /** `d` is not added but some of its ancestors in `done` are. */
  ghost predicate Touched(pool: Pool, added: set<TxId>, done: set<TxId>, d: TxId) {
    d in pool && d !in added && pool[d].anc * done != {}
  }

  function Base(pool: Pool, modified: map<TxId, Mod>, d: TxId): Mod
    requires d in pool
  {
    if d in modified then modified[d] else Cached(pool[d])
  }

  /** The fees of the included ancestors that are taken off: what they pay, but what it was counted as for the
      first of them, in the order of their ids, if the entry was not modified before. */
  ghost predicate FeesTakenOff(pool: Pool, txs: set<TxId>, known: bool, base: int, fees: int)
    requires txs <= pool.Keys
  {
    if known then fees == base - Sum(pool, Fee, txs)
    else txs != {} && var first := pool[Least(txs)]; fees == base - Sum(pool, Fee, txs) - (first.modFee - first.fee)
  }

  /** The size, the sigops and the fees of the included ancestors are taken off, once each. */
  ghost predicate TakenOff(pool: Pool, done: set<TxId>, d: TxId, known: bool, base: Mod, m: Mod)
    requires WellFormed(pool) && d in pool
  {
    FamilyInPool(pool, d);
    && m.size == base.size - Sum(pool, Size, pool[d].anc * done)
    && m.sigops == base.sigops - Sum(pool, Sigops, pool[d].anc * done)
    && FeesTakenOff(pool, pool[d].anc * done, known, base.modFees, m.modFees)
  }

  ghost predicate UpdatedAt(pool: Pool, added: set<TxId>, done: set<TxId>, before: map<TxId, Mod>, after: map<TxId, Mod>, d: TxId)
    requires WellFormed(pool)
  {
    if Touched(pool, added, done, d) then d in after && TakenOff(pool, done, d, d in before, Base(pool, before, d), after[d])
    else (d in after <==> d in before) && (d in after ==> after[d] == before[d])
  }

  ghost predicate Updated(pool: Pool, added: set<TxId>, done: set<TxId>, before: map<TxId, Mod>, after: map<TxId, Mod>)
    requires WellFormed(pool)
  {
    forall d :: UpdatedAt(pool, added, done, before, after, d)
  }

  /** What including `it` does to one descendant. An entry that is not yet modified starts from the
      cached totals and loses the modified fee; a modified one loses the base fee. */
  function Include(pool: Pool, modified: map<TxId, Mod>, it: TxId, d: TxId): Mod
    requires it in pool && d in pool
  {
    var e := pool[it];
    if d in modified then
      Mod(modified[d].size - e.size, modified[d].modFees - e.fee, modified[d].sigops - e.sigops)
    else
      var c := Cached(pool[d]);
      Mod(c.size - e.size, c.modFees - e.modFee, c.sigops - e.sigops)
  }

  lemma SumOfIncluded(pool: Pool, q: Quantity, d: TxId, done: set<TxId>, it: TxId)
    requires WellFormed(pool) && d in pool && it in pool && it !in done
    ensures pool[d].anc <= pool.Keys
    ensures Sum(pool, q, pool[d].anc * (done + {it})) ==
            Sum(pool, q, pool[d].anc * done) + if it in pool[d].anc then Amount(pool[it], q) else 0
  {
    hide WellFormed, Sum;
    FamilyInPool(pool, d);
    var anc := pool[d].anc;
    if it in anc {
      assert anc * (done + {it}) == anc * done + {it};
      SumWithout(pool, q, anc * done + {it}, it);
      assert anc * done + {it} - {it} == anc * done;
    } else {
      assert anc * (done + {it}) == anc * done;
    }
  }

  /** `after` is `mid` with `it` included in every entry of `ds`. */
  ghost predicate Included(pool: Pool, it: TxId, ds: set<TxId>, mid: map<TxId, Mod>, after: map<TxId, Mod>, d: TxId)
    requires it in pool && ds <= pool.Keys
  {
    if d in ds then d in after && after[d] == Include(pool, mid, it, d)
    else (d in after <==> d in mid) && (d in after ==> after[d] == mid[d])
  }

  lemma IncludeOne(pool: Pool, added: set<TxId>, done: set<TxId>, it: TxId, before: map<TxId, Mod>, mid: map<TxId, Mod>,
                   after: map<TxId, Mod>, d: TxId)
    requires WellFormed(pool) && it in added && it in pool && it !in done
    requires forall x | x in done :: x < it
    requires UpdatedAt(pool, added, done, before, mid, d)
    requires Included(pool, it, Descendants(pool, it) - added, mid, after, d)
    ensures UpdatedAt(pool, added, done + {it}, before, after, d)
  {
    hide WellFormed, Sum;
    if d in pool && d !in added {
      SumOfIncluded(pool, Size, d, done, it);
      SumOfIncluded(pool, Sigops, d, done, it);
      SumOfIncluded(pool, Fee, d, done, it);
      SumOfNone(pool);
      var anc := pool[d].anc;
      assert it in anc ==> it in anc * (done + {it});
      assert it !in anc ==> anc * (done + {it}) == anc * done;
      assert anc * done <= anc * (done + {it});
      if it in anc && d !in before {
        IncludeFees(pool, anc * done, it, Cached(pool[d]).modFees, d in mid, if d in mid then mid[d].modFees else 0, after[d].modFees);
        assert anc * (done + {it}) == anc * done + {it};
      }
    }
  }

  lemma IncludeFees(pool: Pool, txs: set<TxId>, it: TxId, base: int, known: bool, fees: int, fees': int)
    requires txs <= pool.Keys && it in pool && forall x | x in txs :: x < it
    requires if known then FeesTakenOff(pool, txs, false, base, fees) && fees' == fees - pool[it].fee
             else txs == {} && fees' == base - pool[it].modFee
    ensures FeesTakenOff(pool, txs + {it}, false, base, fees')
  {
    hide Sum;
    SumWithout(pool, Fee, txs + {it}, it);
    assert txs + {it} - {it} == txs;
    SumOfNone(pool);
    assert Least(txs + {it}) == if known then Least(txs) else it;
  }

  /** The fees taken off are those counted if and only if what the fees were changed by cancels out: for all
      ancestors taken off, or, if the entry was not modified before, for all but the one with the least id. */
  lemma FeesAreExact(pool: Pool, txs: set<TxId>, known: bool, base: int, fees: int)
    requires txs <= pool.Keys && FeesTakenOff(pool, txs, known, base, fees)
    ensures known ==> (fees == base - Sum(pool, ModFee, txs) <==> Sum(pool, ModFee, txs) == Sum(pool, Fee, txs))
    ensures !known ==> txs != {}
    ensures !known ==>
              var rest := txs - {Least(txs)};
              fees == base - Sum(pool, ModFee, txs) <==> Sum(pool, ModFee, rest) == Sum(pool, Fee, rest)
    ensures Unprioritised(pool) ==> fees == base - Sum(pool, ModFee, txs)
  {
    hide Sum;
    if Unprioritised(pool) {
      SameFees(pool, txs);
    }
    if !known {
      SumWithout(pool, Fee, txs, Least(txs));
      SumWithout(pool, ModFee, txs, Least(txs));
    }
  }

  lemma SumOfNone(pool: Pool)
    ensures forall q :: Sum(pool, q, {}) == 0
  {
  }

  /** Includes `it` in every entry of `ds`. */
  method IncludeInAll(pool: Pool, it: TxId, ds: set<TxId>, mid: map<TxId, Mod>) returns (r: map<TxId, Mod>, n: nat)
    requires it in pool && ds <= pool.Keys
    ensures (forall d :: Included(pool, it, ds, mid, r, d)) && n == |ds|
  {
    hide Include;
    r, n := mid, 0;
    var left := ds;
    while left != {}
      invariant left <= ds && n == |ds - left|
      invariant forall d :: Included(pool, it, ds - left, mid, r, d)
      decreases left
    {
      var d :| d in left;
      n := n + 1;
      ghost var was := r;
      assert Included(pool, it, ds - left, mid, was, d);
      r := r[d := Include(pool, r, it, d)];
      SameInclude(pool, mid, was, it, d);
      assert ds - (left - {d}) == ds - left + {d};
      forall x ensures Included(pool, it, ds - left + {d}, mid, r, x) {
        assert Included(pool, it, ds - left, mid, was, x);
      }
      left := left - {d};
    }
    assert ds - left == ds;
  }

  lemma SameInclude(pool: Pool, mid: map<TxId, Mod>, was: map<TxId, Mod>, it: TxId, d: TxId)
    requires it in pool && d in pool && (d in was <==> d in mid) && (d in was ==> was[d] == mid[d])
    ensures Include(pool, was, it, d) == Include(pool, mid, it, d)
  {
  }

  method UpdatePackagesForAdded(pool: Pool, added: set<TxId>, modified: map<TxId, Mod>) returns (r: map<TxId, Mod>, n: nat)
    requires WellFormed(pool) && added <= pool.Keys
    ensures Updated(pool, added, added, modified, r) && n == Touches(pool, added, added)
  {
    hide WellFormed, Sum, UpdatedAt, Touches;
    r, n := modified, 0;
    var todo := added;
    UpdatedStart(pool, added, modified);
    while todo != {}
      invariant todo <= added && forall x, y | x in added - todo && y in todo :: x < y
      invariant Updated(pool, added, added - todo, modified, r) && n + Touches(pool, added, todo) == Touches(pool, added, added)
      decreases todo
    {
      var it := FirstId(todo);
      ghost var mid := r;
      var descendants := Descendants(pool, it) - added;
      var k;
      r, k := IncludeInAll(pool, it, descendants, r);
      n := n + k;
      forall d ensures UpdatedAt(pool, added, added - todo + {it}, modified, r, d) {
        IncludeOne(pool, added, added - todo, it, modified, mid, r, d);
      }
      assert added - todo + {it} == added - (todo - {it});
      TouchesNext(pool, added, todo, it);
      todo := todo - {it};
    }
    assert added - todo == added;
    TouchesNone(pool, added);
  }

  /** The number of updates for an inclusion: for each transaction, its descendants that are not added. */
  ghost function Touches(pool: Pool, added: set<TxId>, todo: set<TxId>): nat {
    if todo == {} then 0 else var t := Least(todo); |Descendants(pool, t) - added| + Touches(pool, added, todo - {t})
  }

  lemma TouchesNext(pool: Pool, added: set<TxId>, todo: set<TxId>, it: TxId)
    requires it in todo && forall x | x in todo && x != it :: it < x
    ensures Touches(pool, added, todo) == |Descendants(pool, it) - added| + Touches(pool, added, todo - {it})
  {
    assert Least(todo) == it;
  }

  lemma TouchesNone(pool: Pool, added: set<TxId>)
    ensures Touches(pool, added, {}) == 0
  {
  }

  /** The next entry of a set that is ordered by id. */
  method FirstId(txs: set<TxId>) returns (it: TxId)
    requires txs != {}
    ensures it in txs && forall x | x in txs && x != it :: it < x
  {
    it :| it in txs;
    var todo := txs - {it};
    while todo != {}
      invariant todo <= txs && it in txs && forall x | x in txs && x !in todo && x != it :: it < x
      decreases todo
    {
      var t :| t in todo;
      if t < it {
        it := t;
      }
      todo := todo - {t};
    }
  }

  lemma UpdatedStart(pool: Pool, added: set<TxId>, modified: map<TxId, Mod>)
    requires WellFormed(pool)
    ensures Updated(pool, added, added - added, modified, modified)
  {
  }

  // ---------------------------------------------------------------- the totals stay right

  /** Including part of a package leaves the rest. */
  lemma RestAfter(pool: Pool, q: Quantity, inBlock: set<TxId>, added: set<TxId>, d: TxId)
    requires WellFormed(pool) && d in pool && d !in added && added !! inBlock
    ensures Family(pool, d) <= pool.Keys
    ensures Sum(pool, q, Rest(pool, inBlock + added, d)) ==
            Sum(pool, q, Rest(pool, inBlock, d)) - Sum(pool, q, pool[d].anc * added)
  {
    hide WellFormed, Sum;
    FamilyInPool(pool, d);
    var left, taken := Rest(pool, inBlock + added, d), pool[d].anc * added;
    SumUnion(pool, q, left, taken);
    assert left + taken == Rest(pool, inBlock, d);
  }

  lemma CachedIsFamily(pool: Pool, d: TxId)
    requires WellFormed(pool) && d in pool
    ensures Family(pool, d) <= pool.Keys
    ensures Cached(pool[d]).size == Sum(pool, Size, Family(pool, d))
    ensures Cached(pool[d]).sigops == Sum(pool, Sigops, Family(pool, d))
    ensures Cached(pool[d]).modFees == Sum(pool, ModFee, Family(pool, d))
  {
    assert EntryOk(pool, d);
  }

  /** The totals an update starts from are never too small, and exact for entries that never failed. */
  lemma BaseIsRight(pool: Pool, h: History, modified: map<TxId, Mod>, failed: set<TxId>, d: TxId)
    requires WellFormed(pool) && Bounded(pool, All(h), modified) && Exact(pool, h, modified, failed)
    requires d in pool && d !in All(h)
    ensures AtLeast(pool, All(h), d, Base(pool, modified, d))
    ensures d !in failed ==> Equal(pool, All(h), d, Base(pool, modified, d)) && FeesKept(pool, h, d, Base(pool, modified, d).modFees)
  {
    hide WellFormed, Sum, All, FirstOff;
    var inBlock := All(h);
    FamilyInPool(pool, d);
    if d !in modified {
      CachedIsFamily(pool, d);
      SumSubset(pool, Size, Rest(pool, inBlock, d), Family(pool, d));
      SumSubset(pool, Sigops, Rest(pool, inBlock, d), Family(pool, d));
      if d !in failed {
        assert Rest(pool, inBlock, d) == Family(pool, d);
        assert Later(pool, h, d) == {};
        SumOfNone(pool);
      }
    }
  }

  /** The fees kept after another package entered the block. */
  lemma FeesAfter(pool: Pool, h: History, added: set<TxId>, d: TxId, fees: int, fees': int)
    requires WellFormed(pool) && d in pool && d !in added && added !! All(h) && FeesKept(pool, h, d, fees)
    requires pool[d].anc <= pool.Keys
    requires if pool[d].anc * added == {} then fees' == fees
             else FeesTakenOff(pool, pool[d].anc * added, pool[d].anc * All(h) != {}, fees, fees')
    ensures FeesKept(pool, h + [added], d, fees')
  {
    hide WellFormed, Sum, All, FirstOff;
    FamilyInPool(pool, d);
    var txs, later := pool[d].anc * added, Later(pool, h, d);
    AllNext(h, added);
    LaterNext(pool, h, d, added);
    RestAfter(pool, ModFee, All(h), added, d);
    SumOfNone(pool);
    if pool[d].anc * All(h) != {} || txs == {} {
      SumUnion(pool, ModFee, later, txs);
      SumUnion(pool, Fee, later, txs);
    } else {
      assert later == {};
      SumWithout(pool, ModFee, txs, Least(txs));
      SumWithout(pool, Fee, txs, Least(txs));
    }
  }

  lemma UpdateOne(pool: Pool, h: History, added: set<TxId>, failed: set<TxId>,
                  before: map<TxId, Mod>, after: map<TxId, Mod>, d: TxId)
    requires WellFormed(pool) && Bounded(pool, All(h), before) && Exact(pool, h, before, failed)
    requires added <= pool.Keys && added !! All(h) && added !! before.Keys
    requires UpdatedAt(pool, added, added, before, after, d)
    requires d in pool && d !in All(h) && d !in added
    ensures d in after ==> AtLeast(pool, All(h) + added, d, after[d])
    ensures d in after && d !in failed ==>
              pool[d].anc * (All(h) + added) != {} && Equal(pool, All(h) + added, d, after[d]) &&
              FeesKept(pool, h + [added], d, after[d].modFees)
    ensures d !in after && d !in failed ==> pool[d].anc !! All(h) + added
  {
    hide WellFormed, Sum, All, FeesKept, FeesTakenOff;
    var inBlock := All(h);
    BaseIsRight(pool, h, before, failed, d);
    RestAfter(pool, Size, inBlock, added, d);
    RestAfter(pool, Sigops, inBlock, added, d);
    assert pool[d].anc * (inBlock + added) == pool[d].anc * inBlock + pool[d].anc * added;
    if d in after && d !in failed {
      FeesAfter(pool, h, added, d, Base(pool, before, d).modFees, after[d].modFees);
    }
    if !Touched(pool, added, added, d) {
      assert pool[d].anc * added == {};
      SumOfNone(pool);
      assert forall a | a in pool[d].anc :: a in added ==> a in pool[d].anc * added;
      assert d !in after && d !in failed ==> pool[d].anc !! inBlock;
    }
  }

  /** Including a set of transactions and updating their descendants keeps every kept total right. */
  lemma UpdateKeeps(pool: Pool, h: History, added: set<TxId>, failed: set<TxId>,
                    before: map<TxId, Mod>, after: map<TxId, Mod>)
    requires WellFormed(pool) && Bounded(pool, All(h), before) && Exact(pool, h, before, failed)
    requires added <= pool.Keys && added !! All(h) && added !! before.Keys
    requires Closed(pool, All(h)) && Updated(pool, added, added, before, after)
    ensures All(h + [added]) == All(h) + added
    ensures Bounded(pool, All(h) + added, after) && Exact(pool, h + [added], after, failed)
  {
    hide WellFormed, Sum, All, AtLeast, Equal, FeesKept;
    AllNext(h, added);
    assert forall d | d in All(h) :: pool[d].anc * added == {};
    forall d | d in after
      ensures d in pool && d !in All(h) + added && AtLeast(pool, All(h) + added, d, after[d])
    {
      assert UpdatedAt(pool, added, added, before, after, d);
      UpdateOne(pool, h, added, failed, before, after, d);
    }
    forall d | d in pool && d !in All(h) + added && d !in failed
      ensures if d in after then
                pool[d].anc * (All(h) + added) != {} && Equal(pool, All(h) + added, d, after[d]) &&
                FeesKept(pool, h + [added], d, after[d].modFees)
              else pool[d].anc !! All(h) + added
    {
      assert UpdatedAt(pool, added, added, before, after, d);
      UpdateOne(pool, h, added, failed, before, after, d);
    }
  }

  /** Entries erased because they are now in the block do not matter. */
  lemma EraseKeeps(pool: Pool, h: History, modified: map<TxId, Mod>, failed: set<TxId>, gone: set<TxId>)
    requires WellFormed(pool) && Bounded(pool, All(h), modified) && Exact(pool, h, modified, failed)
    ensures Bounded(pool, All(h), modified - gone)
    ensures Exact(pool, h, modified - gone, failed + gone)
  {
    hide WellFormed, All, AtLeast, Equal, FeesKept;
  }

  /** Two ancestors, each paying 100 and counted as 600, enter the block. The 600 are taken off for the first
      and only the 100 for the second: the transaction, which pays 100 itself, is left with 600. */
  method PriorityStaysCounted() returns (pool: Pool, r: map<TxId, Mod>)
    ensures WellFormed(pool) && pool.Keys == {1, 2, 3} && pool[3].anc == {1, 2}
    ensures Rest(pool, {1, 2}, 3) == {3} && Sum(pool, ModFee, {3}) == 100
    ensures 3 in r && r[3].modFees == 600
  {
    var parent := Entry(1, 4, 0, 100, 600, true, false, {}, 1, 600, 0, 1);
    var child := Entry(1, 4, 0, 100, 100, true, false, {1, 2}, 3, 1300, 0, 3);
    pool := map[1 := parent, 2 := parent, 3 := child];
    SmallPool(pool, parent, child);
    hide WellFormed, Sum;
    var n;
    r, n := UpdatePackagesForAdded(pool, {1, 2}, map[]);
    assert UpdatedAt(pool, {1, 2}, {1, 2}, map[], r, 3);
    assert pool[3].anc * {1, 2} == {1, 2};
    assert Least({1, 2}) == 1;
  }

  lemma SmallPool(pool: Pool, parent: Entry, child: Entry)
    requires parent == Entry(1, 4, 0, 100, 600, true, false, {}, 1, 600, 0, 1)
    requires child == Entry(1, 4, 0, 100, 100, true, false, {1, 2}, 3, 1300, 0, 3)
    requires pool == map[1 := parent, 2 := parent, 3 := child]
    ensures WellFormed(pool) && Sum(pool, ModFee, {3}) == 100 && Sum(pool, Fee, {1, 2}) == 200
    ensures Rest(pool, {1, 2}, 3) == {3}
  {
    hide Sum;
    assert Family(pool, 1) == {1} && Family(pool, 2) == {2} && Family(pool, 3) == {1, 2} + {3};
    forall q ensures Sum(pool, q, {1}) == Sum(pool, q, {2}) == Amount(parent, q)
      ensures Sum(pool, q, {3}) == Amount(child, q) && Sum(pool, q, {1, 2}) == 2 * Amount(parent, q)
      ensures Sum(pool, q, Family(pool, 3)) == 2 * Amount(parent, q) + Amount(child, q)
    {
      SumOfOne(pool, q, 1);
      SumOfOne(pool, q, 2);
      SumOfOne(pool, q, 3);
      assert {1} + {2} == {1, 2};
      SumUnion(pool, q, {1}, {2});
      SumUnion(pool, q, {1, 2}, {3});
    }
    assert |{1, 2}| == 2;
    assert EntryOk(pool, 1) && EntryOk(pool, 2) && EntryOk(pool, 3);
  }

  lemma SumOfOne(pool: Pool, q: Quantity, t: TxId)
    requires t in pool
    ensures Sum(pool, q, {t}) == Amount(pool[t], q)
  {
    SumWithout(pool, q, {t}, t);
    assert {t} - {t} == {};
  }
}
