/** The memory pool as the block assembler sees it: a finite acyclic graph of transactions with the
    totals over ancestors that the pool caches. */
module Mempool {
  import opened Common

  /** A transaction id; ids are ordered, and the order breaks ties. */
  type TxId = nat

  /** A pool entry. `anc` are its ancestors in the pool, itself not included; the last four fields are
      the cached totals over `anc` and the entry itself. */
  datatype Entry = Entry(
    size: nat, weight: nat, sigops: nat, fee: int, modFee: int, isFinal: bool, hasWitness: bool,
    anc: set<TxId>,
    sizeWithAnc: int, modFeesWithAnc: int, sigopsWithAnc: int, countWithAnc: nat)

  type Pool = map<TxId, Entry>

  datatype Quantity = Size | Weight | Sigops | Fee | ModFee

  function Amount(e: Entry, q: Quantity): int {
    match q
    case Size => e.size
    case Weight => e.weight
    case Sigops => e.sigops
    case Fee => e.fee
    case ModFee => e.modFee
  }

  /** The total of a quantity over a set of transactions. */
  ghost function Sum(pool: Pool, q: Quantity, txs: set<TxId>): int
    requires txs <= pool.Keys
  {
    if txs == {} then 0 else
    var t :| t in txs;
    Amount(pool[t], q) + Sum(pool, q, txs - {t})
  }

  lemma {:induction false} SumWithout(pool: Pool, q: Quantity, txs: set<TxId>, t: TxId)
    requires txs <= pool.Keys && t in txs
    ensures Sum(pool, q, txs) == Amount(pool[t], q) + Sum(pool, q, txs - {t})
    decreases txs
  {
    var u :| u in txs && Sum(pool, q, txs) == Amount(pool[u], q) + Sum(pool, q, txs - {u});
    if u != t {
      SumWithout(pool, q, txs - {u}, t);
      SumWithout(pool, q, txs - {t}, u);
      assert txs - {u} - {t} == txs - {t} - {u};
    }
  }

  lemma {:induction false} SumUnion(pool: Pool, q: Quantity, a: set<TxId>, b: set<TxId>)
    requires a <= pool.Keys && b <= pool.Keys && a !! b
    ensures Sum(pool, q, a + b) == Sum(pool, q, a) + Sum(pool, q, b)
    decreases b
  {
    if b == {} {
      assert a + b == a;
    } else {
      var t :| t in b;
      SumUnion(pool, q, a, b - {t});
      SumWithout(pool, q, a + b, t);
      SumWithout(pool, q, b, t);
      assert a + b - {t} == a + (b - {t});
    }
  }

  lemma {:induction false} SumNonNegative(pool: Pool, q: Quantity, a: set<TxId>)
    requires a <= pool.Keys && q != Fee && q != ModFee
    ensures Sum(pool, q, a) >= 0
    decreases a
  {
    if a != {} {
      var t :| t in a;
      SumWithout(pool, q, a, t);
      SumNonNegative(pool, q, a - {t});
    }
  }

  lemma SumSubset(pool: Pool, q: Quantity, a: set<TxId>, b: set<TxId>)
    requires a <= b <= pool.Keys && q != Fee && q != ModFee
    ensures Sum(pool, q, a) <= Sum(pool, q, b)
  {
    SumUnion(pool, q, a, b - a);
    assert a + (b - a) == b;
    SumNonNegative(pool, q, b - a);
  }

  lemma {:induction false} WeightOfSize(pool: Pool, a: set<TxId>)
    requires WellFormed(pool) && a <= pool.Keys
    ensures Sum(pool, Weight, a) <= 4 * Sum(pool, Size, a)
    decreases a
  {
    if a != {} {
      var t :| t in a;
      SumWithout(pool, Size, a, t);
      SumWithout(pool, Weight, a, t);
      assert EntryOk(pool, t);
      WeightOfSize(pool, a - {t});
    }
  }

  ghost function Family(pool: Pool, t: TxId): set<TxId>
    requires t in pool
  {
    pool[t].anc + {t}
  }

  /** What the pool guarantees of an entry: ancestors are in the pool and closed, no entry is its own
      ancestor, the virtual size covers the weight, and the cached totals are right. */
  ghost predicate EntryOk(pool: Pool, t: TxId)
    requires t in pool
  {
    var e := pool[t];
    && e.anc <= pool.Keys && t !in e.anc
    && (forall a | a in e.anc :: pool[a].anc <= e.anc)
    && 0 < e.size && e.weight <= 4 * e.size
    && e.sizeWithAnc == Sum(pool, Size, Family(pool, t))
    && e.modFeesWithAnc == Sum(pool, ModFee, Family(pool, t))
    && e.sigopsWithAnc == Sum(pool, Sigops, Family(pool, t))
    && e.countWithAnc == |e.anc| + 1
  }

  ghost predicate WellFormed(pool: Pool) {
    forall t | t in pool :: EntryOk(pool, t)
  }

  /** No transaction was given another fee than it pays. */
  ghost predicate Unprioritised(pool: Pool) {
    forall t | t in pool :: pool[t].modFee == pool[t].fee
  }

  lemma {:induction false} SameFees(pool: Pool, txs: set<TxId>)
    requires Unprioritised(pool) && txs <= pool.Keys
    ensures Sum(pool, ModFee, txs) == Sum(pool, Fee, txs)
    decreases txs
  {
    if txs != {} {
      var t := Element(txs);
      SumWithout(pool, ModFee, txs, t);
      SumWithout(pool, Fee, txs, t);
      SameFees(pool, txs - {t});
    }
  }

  /** An ancestor has strictly fewer ancestors, so sorting by their number puts parents first. */
  lemma AncestorsComeFirst(pool: Pool, a: TxId, t: TxId)
    requires WellFormed(pool) && t in pool && a in pool[t].anc
    ensures a in pool && pool[a].countWithAnc < pool[t].countWithAnc
  {
    assert EntryOk(pool, t);
    assert EntryOk(pool, a);
    assert pool[a].anc < pool[t].anc;
    SmallerSet(pool[a].anc, pool[t].anc);
  }

  /** `CalculateDescendants`: the transaction and everything that descends from it. */
  function Descendants(pool: Pool, t: TxId): set<TxId> {
    set d | d in pool && (d == t || t in pool[d].anc)
  }
}
