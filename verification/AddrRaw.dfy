/** What loading an arbitrary file leaves in the address manager (`Unserialize` in src/addrman.h): before the
    entries without a reference are pruned, and after. */
module AddrRaw {
  import opened Common
  import opened AddrState
  import opened AddrOps

  /** The part of an entry that is written: the last try and the last counted attempt are not. */
  function Record(i: Info): Info {
    i.Facts().(lastTry := 0, lastCountAttempt := 0)
  }

  function LoadInfo(t: State, i: Info, n: int): State {
    t.(info := t.info[n := i.(randomPos := |t.random|)], addrs := t.addrs[i.addr := n], random := t.random + [n])
  }

  /** The tried ones among the loaded entries are in their slots, and nothing else is. */
  ghost predicate PartialTried(salt: Salt, t: State) {
    && (forall k | k in t.info && t.info[k].inTried :: t.info[k].TriedSlot(salt) in t.tried && t.tried[t.info[k].TriedSlot(salt)] == k)
    && (forall slot | slot in t.tried :: t.tried[slot] in t.info && t.info[t.tried[slot]].inTried && t.info[t.tried[slot]].TriedSlot(salt) == slot)
  }

  // ---------------------------------------------------------------- before pruning

  /** The entries 0 to `m - 1`, in that order. */
  ghost predicate RawInfos(t: State, m: int) {
    && 0 <= m && |t.random| == m && (forall k | 0 <= k < m :: t.random[k] == k)
    && (forall k :: k in t.info <==> 0 <= k < m)
    && (forall k | 0 <= k < m :: t.info[k].randomPos == k && t.info[k].lastTry == 0)
  }

  /** The index leads to the last entry with an address. */
  ghost predicate RawAddrs(t: State) {
    && (forall k | k in t.info :: t.info[k].addr in t.addrs && t.addrs[t.info[k].addr] >= k)
    && (forall a | a in t.addrs :: t.addrs[a] in t.info && t.info[t.addrs[a]].addr == a)
  }

  /** The new table and the references are right. */
  ghost predicate RawTable(salt: Salt, t: State) {
    && (forall slot | slot in t.unk :: NewSlotOk(salt, t, slot))
    && RefsMatch(t)
    && (forall k | k in t.info :: t.info[k].refCount <= NEW_BUCKETS_PER_ADDRESS)
  }

  ghost predicate Raw(salt: Salt, t: State, m: int) {
    RawInfos(t, m) && RawAddrs(t) && PartialTried(salt, t) && RawTable(salt, t)
  }

  lemma RawStart(salt: Salt, t: State)
    requires t.info == map[] && t.random == [] && t.addrs == map[] && t.tried == map[] && t.unk == map[]
    ensures Raw(salt, t, 0)
  {
  }

  /** Loading looks at no counter. */
  lemma RawCounts(salt: Salt, t: State, m: int, u: State)
    requires Raw(salt, t, m) && u == t.(idCount := u.idCount, nNew := u.nNew, nTried := u.nTried)
    ensures Raw(salt, u, m)
  {
    hide Info.TriedSlot;
    RawTableKept(salt, t, u);
  }

  lemma RawTableKept(salt: Salt, t: State, u: State)
    requires RawTable(salt, t) && u.info == t.info && u.unk == t.unk
    ensures RawTable(salt, u)
  {
    forall slot | slot in u.unk ensures NewSlotOk(salt, u, slot) {
      assert NewSlotOk(salt, t, slot);
    }
  }

  lemma RawTableLoad(salt: Salt, t: State, i: Info, m: int)
    requires RawTable(salt, t) && m !in t.info && i.refCount == 0
    ensures RawTable(salt, LoadInfo(t, i, m))
  {
    var u := LoadInfo(t, i, m);
    forall slot | slot in u.unk ensures NewSlotOk(salt, u, slot) && u.unk[slot] != m {
      assert NewSlotOk(salt, t, slot);
    }
    assert SlotsOf(u.unk, m) == {};
  }

  lemma RawInfosLoad(t: State, i: Info, m: int)
    requires RawInfos(t, m) && RawAddrs(t) && i.lastTry == 0
    ensures RawInfos(LoadInfo(t, i, m), m + 1) && RawAddrs(LoadInfo(t, i, m))
  {
  }

  /** One more entry of the new table, without a reference yet. */
  lemma RawLoadNew(salt: Salt, t: State, i: Info, m: int)
    requires Raw(salt, t, m) && i.refCount == 0 && i.lastTry == 0 && !i.inTried
    ensures Raw(salt, LoadInfo(t, i, m), m + 1)
  {
    hide Info.TriedSlot, RawTable;
    RawTableLoad(salt, t, i, m);
    RawInfosLoad(t, i, m);
    hide RawAddrs;
    forall k | k in t.info && t.info[k].inTried ensures LoadInfo(t, i, m).info[k] == t.info[k] {
    }
  }

  /** One more entry of the tried table, in a free slot. */
  lemma RawLoadTried(salt: Salt, t: State, i: Info, m: int)
    requires Raw(salt, t, m) && i.refCount == 0 && i.lastTry == 0 && i.inTried && i.TriedSlot(salt) !in t.tried
    ensures Raw(salt, LoadInfo(t, i, m).(tried := t.tried[i.TriedSlot(salt) := m]), m + 1)
  {
    hide Info.TriedSlot, RawTable;
    var u := LoadInfo(t, i, m).(tried := t.tried[i.TriedSlot(salt) := m]);
    RawTableLoad(salt, t, i, m);
    RawTableKept(salt, LoadInfo(t, i, m), u);
    RawInfosLoad(t, i, m);
    hide RawAddrs;
    SamePeerSameSlot(salt, u.info[m], i);
  }

  /** One more reference. */
  lemma RawPut(salt: Salt, t: State, m: int, k: int, slot: Slot)
    requires Raw(salt, t, m) && k in t.info && !t.info[k].inTried && 0 <= slot.0 < NEW_BUCKET_COUNT
    requires slot.1 == t.info[k].BucketPosition(salt, true, slot.0)
    requires slot !in t.unk && t.info[k].refCount < NEW_BUCKETS_PER_ADDRESS
    ensures Raw(salt, PutNew(t, k, slot), m)
  {
    hide Info.TriedSlot, RawTable, Info.BucketPosition;
    RawTablePut(salt, t, k, slot);
    SamePeerSameSlot(salt, PutNew(t, k, slot).info[k], t.info[k]);
  }

  lemma RawTablePut(salt: Salt, t: State, k: int, slot: Slot)
    requires RawTable(salt, t) && k in t.info && !t.info[k].inTried && 0 <= slot.0 < NEW_BUCKET_COUNT
    requires slot.1 == t.info[k].BucketPosition(salt, true, slot.0)
    requires slot !in t.unk && t.info[k].refCount < NEW_BUCKETS_PER_ADDRESS
    ensures RawTable(salt, PutNew(t, k, slot))
  {
    PutSlots(salt, t, k, slot);
    PutRefs(t, k, slot);
    hide NewSlotOk, RefsMatch;
  }

  lemma PutSlots(salt: Salt, t: State, k: int, slot: Slot)
    requires k in t.info && !t.info[k].inTried && 0 <= slot.0 < NEW_BUCKET_COUNT
    requires slot.1 == t.info[k].BucketPosition(salt, true, slot.0) && forall sl | sl in t.unk :: NewSlotOk(salt, t, sl)
    ensures forall sl | sl in PutNew(t, k, slot).unk :: NewSlotOk(salt, PutNew(t, k, slot), sl)
  {
    forall sl | sl in PutNew(t, k, slot).unk ensures NewSlotOk(salt, PutNew(t, k, slot), sl) {
      assert sl != slot ==> NewSlotOk(salt, t, sl);
    }
  }

  lemma PutRefs(t: State, k: int, slot: Slot)
    requires RefsMatch(t) && k in t.info && slot !in t.unk
    ensures RefsMatch(PutNew(t, k, slot))
  {
    hide SlotsOf;
    var u := PutNew(t, k, slot);
    forall n | n in u.info ensures u.info[n].refCount == |SlotsOf(u.unk, n)| {
      SlotsOfPut(t.unk, slot, k, n);
    }
  }

  lemma SlotsOfPut(unk: map<Slot, int>, slot: Slot, k: int, n: int)
    requires slot !in unk
    ensures |SlotsOf(unk[slot := k], n)| == |SlotsOf(unk, n)| + if n == k then 1 else 0
  {
    assert SlotsOf(unk[slot := k], n) == if n == k then SlotsOf(unk, n) + {slot} else SlotsOf(unk, n);
  }

  // ---------------------------------------------------------------- pruning

  /** An entry that pruning keeps. */
  predicate Kept(t: State, k: int)
    requires k in t.info
  {
    t.info[k].inTried || t.info[k].refCount != 0
  }

  ghost function Dropped(l: State, id: int): set<int> {
    set k | k in l.info && k < id && !Kept(l, k)
  }

  ghost predicate RandomOk(t: State) {
    && (forall n | n in t.info :: 0 <= t.info[n].randomPos < |t.random| && t.random[t.info[n].randomPos] == n)
    && (forall k | 0 <= k < |t.random| :: t.random[k] in t.info && t.info[t.random[k]].randomPos == k)
  }

  /** `t` is `l` without the entries below `id` that have no reference. */
  ghost predicate Pruned(l: State, t: State, id: int) {
    && t == l.(info := t.info, addrs := t.addrs, random := t.random, nNew := l.nNew - |Dropped(l, id)|)
    && t.info.Keys == l.info.Keys - Dropped(l, id) && (forall k | k in t.info :: SameButPos(t.info[k], l.info[k]))
    && RandomOk(t) && AddrsLeft(l, t, id)
  }

  ghost predicate Taken(l: State, id: int, a: NetAddr) {
    exists k :: k in Dropped(l, id) && l.info[k].addr == a
  }

  ghost predicate AddrsLeft(l: State, t: State, id: int) {
    && (forall a :: a in t.addrs <==> a in l.addrs && !Taken(l, id, a))
    && (forall a | a in t.addrs && a in l.addrs :: t.addrs[a] == l.addrs[a])
  }

  lemma PruneStart(salt: Salt, l: State, m: int)
    requires Raw(salt, l, m)
    ensures Pruned(l, l, 0)
  {
    hide RawAddrs, RawTable, PartialTried;
    assert Dropped(l, 0) == {};
  }

  lemma DeleteRandom(t: State, n: int)
    requires RandomOk(t) && n in t.info
    ensures CanDelete(t, n) && RandomOk(Delete(t, n))
  {
    var r := Swap(t, t.info[n].randomPos, |t.random| - 1);
    SwapRandomOk(t, t.info[n].randomPos, |t.random| - 1);
    DeleteIsForget(t, n);
    ForgetRandomOk(r, n);
  }

  lemma SwapRandomOk(t: State, j: int, k: int)
    requires RandomOk(t) && 0 <= j < |t.random| && 0 <= k < |t.random|
    ensures RandomOk(Swap(t, j, k))
  {
  }

  lemma ForgetRandomOk(t: State, n: int)
    requires RandomOk(t) && n in t.info && t.random != [] && t.random[|t.random| - 1] == n
    ensures RandomOk(Forget(t, n))
  {
  }

  lemma DroppedNext(l: State, id: int)
    requires id in l.info && !Kept(l, id)
    ensures Dropped(l, id + 1) == Dropped(l, id) + {id} && id !in Dropped(l, id)
    ensures |Dropped(l, id + 1)| == |Dropped(l, id)| + 1
    ensures forall a :: Taken(l, id + 1, a) <==> Taken(l, id, a) || a == l.info[id].addr
  {
    forall a ensures Taken(l, id + 1, a) <==> Taken(l, id, a) || a == l.info[id].addr {
      if Taken(l, id + 1, a) {
        var k :| k in Dropped(l, id + 1) && l.info[k].addr == a;
        assert k != id ==> k in Dropped(l, id);
      }
      if Taken(l, id, a) {
        var k :| k in Dropped(l, id) && l.info[k].addr == a;
        assert k in Dropped(l, id + 1);
      }
      assert id in Dropped(l, id + 1);
    }
  }

  lemma PruneDelete(l: State, t: State, id: int)
    requires Pruned(l, t, id) && id in t.info && !Kept(t, id)
    ensures Pruned(l, Delete(t, id), id + 1)
  {
    hide Dropped, Taken;
    DeleteRandom(t, id);
    DeleteFacts(t, id);
    DeleteRest(t, id);
    DroppedNext(l, id);
    hide RandomOk, Delete;
    var u := Delete(t, id);
    forall k | k in u.info ensures SameButPos(u.info[k], l.info[k]) {
      assert SameButPos(u.info[k], t.info[k]) && SameButPos(t.info[k], l.info[k]);
    }
  }

  lemma DeleteRest(t: State, n: int)
    requires CanDelete(t, n)
    ensures var u := Delete(t, n); u == t.(info := u.info, addrs := u.addrs, random := u.random, nNew := t.nNew - 1)
  {
  }

  lemma PruneSkip(l: State, t: State, id: int)
    requires Pruned(l, t, id) && (id in t.info ==> Kept(t, id))
    ensures Pruned(l, t, id + 1)
  {
    assert Dropped(l, id + 1) == Dropped(l, id);
  }

  // ---------------------------------------------------------------- when the result is consistent

  /** An entry that stays has plausible times, and an address that no other entry loaded has. */
  ghost predicate FitsIn(l: State, k: int)
    requires k in l.info
  {
    && 0 <= l.info[k].lastSuccess && (l.info[k].inTried ==> l.info[k].lastSuccess != 0)
    && forall j | j in l.info && j != k :: l.info[j].addr != l.info[k].addr
  }

  ghost predicate AllFit(l: State) {
    forall k | k in l.info && Kept(l, k) :: FitsIn(l, k)
  }

  /** The counters of the loaded entries: the new ones come first. */
  ghost predicate Counted(l: State, m: int) {
    && l.idCount == m && 0 <= l.nNew <= m && l.nTried == m - l.nNew
    && (forall k | k in l.info :: l.info[k].inTried <==> l.nNew <= k)
  }

  lemma IndexedIff(l: State, t: State, m: int, k: int)
    requires RawAddrs(l) && Pruned(l, t, m) && (forall j | j in l.info :: j < m) && k in t.info && k in l.info && Kept(l, k)
    ensures (l.info[k].addr in t.addrs && t.addrs[l.info[k].addr] == k) ==>
            forall j | j in l.info && j != k && Kept(l, j) && l.info[j].addr == l.info[k].addr :: t.addrs[l.info[j].addr] != j
    ensures (forall j | j in l.info && j != k :: l.info[j].addr != l.info[k].addr) ==>
            l.info[k].addr in t.addrs && t.addrs[l.info[k].addr] == k
    ensures (exists j :: j in l.info && j != k && !Kept(l, j) && l.info[j].addr == l.info[k].addr) ==> l.info[k].addr !in t.addrs
  {
    var a := l.info[k].addr;
    if forall j | j in l.info && j != k :: l.info[j].addr != a {
      assert !Taken(l, m, a);
    }
    if j :| j in l.info && j != k && !Kept(l, j) && l.info[j].addr == a {
      assert j in Dropped(l, m);
      assert Taken(l, m, a);
    }
  }

  lemma ConsistentFits(salt: Salt, l: State, t: State, m: int)
    requires Raw(salt, l, m) && Pruned(l, t, m) && Inv(salt, t)
    ensures AllFit(l)
  {
    hide Info.TriedSlot, RawTable, Inv;
    forall k | k in l.info && Kept(l, k) ensures FitsIn(l, k) {
      assert k in t.info;
      EntryBasics(salt, t, k);
      IndexedIff(l, t, m, k);
      forall j | j in l.info && j != k ensures l.info[j].addr != l.info[k].addr {
        if Kept(l, j) {
          assert j in t.info;
          EntryBasics(salt, t, j);
        }
      }
    }
  }

  lemma PrunedIndexes(l: State, t: State, m: int)
    requires RawAddrs(l) && Pruned(l, t, m) && forall j | j in l.info :: j < m
    ensures IndexesOk(t)
  {
    forall a | a in t.addrs ensures t.addrs[a] in t.info && t.info[t.addrs[a]].addr == a {
      var k := l.addrs[a];
      if k in Dropped(l, m) {
        DropTakes(l, m, k);
      }
    }
  }

  lemma DropTakes(l: State, id: int, k: int)
    requires k in Dropped(l, id)
    ensures Taken(l, id, l.info[k].addr)
  {
  }

  lemma PrunedEntry(salt: Salt, l: State, t: State, m: int, k: int)
    requires Raw(salt, l, m) && Pruned(l, t, m) && AllFit(l) && l.idCount == m && k in t.info
    ensures InfoOk(t, k, {})
  {
    hide Info.TriedSlot;
    assert Kept(l, k) by { assert k !in Dropped(l, m); }
    assert FitsIn(l, k);
    IndexedIff(l, t, m, k);
    TriedHaveNone(salt, l, k);
    assert SameButPos(t.info[k], l.info[k]);
  }

  lemma TriedHaveNone(salt: Salt, l: State, k: int)
    requires RawTable(salt, l) && k in l.info
    ensures l.info[k].refCount >= 0 && (l.info[k].inTried ==> l.info[k].refCount == 0)
  {
    if l.info[k].inTried {
      forall slot | slot in l.unk ensures l.unk[slot] != k {
        assert NewSlotOk(salt, l, slot);
      }
      assert SlotsOf(l.unk, k) == {};
    }
  }

  lemma PrunedTables(salt: Salt, l: State, t: State, m: int)
    requires Raw(salt, l, m) && Pruned(l, t, m)
    ensures TablesOk(salt, t) && TriedPlaced(salt, t) && RefsMatch(t)
  {
    hide Info.TriedSlot;
    forall slot | slot in l.unk ensures l.unk[slot] in t.info {
      assert NewSlotOk(salt, l, slot);
      assert slot in SlotsOf(l.unk, l.unk[slot]);
      assert l.info[l.unk[slot]].refCount != 0;
    }
    forall k | k in t.info ensures SameService(l, t, k) && t.info[k].refCount == l.info[k].refCount {
      assert SameButPos(t.info[k], l.info[k]);
    }
    forall slot | slot in t.tried ensures TriedSlotOk(salt, l, slot) {
    }
    TablesKept(salt, l, t);
    TriedPlacedKept(salt, l, t);
  }

  lemma {:induction false} IntervalSize(a: int, b: int, ids: set<int>)
    requires a <= b && forall k :: k in ids <==> a <= k < b
    ensures |ids| == b - a
    decreases b - a
  {
    if a == b {
      forall k ensures k !in ids {
      }
      assert ids == {};
    } else {
      IntervalSize(a, b - 1, ids - {b - 1});
    }
  }

  lemma PrunedCounts(l: State, t: State, m: int)
    requires RawInfos(l, m) && Counted(l, m) && Pruned(l, t, m)
    ensures CountsOk(t, {}, 0)
  {
    hide RandomOk, AddrsLeft;
    IntervalSize(0, l.nNew, NewIds(l.info, {}));
    IntervalSize(l.nNew, m, TriedIds(l.info));
    PrunedIds(l, t, m);
  }

  lemma PrunedIds(l: State, t: State, m: int)
    requires Pruned(l, t, m)
    ensures TriedIds(t.info) == TriedIds(l.info)
    ensures |NewIds(l.info, {})| == |NewIds(t.info, {})| + |Dropped(l, m)|
  {
    hide RandomOk, AddrsLeft;
    forall k | k in t.info ensures t.info[k].inTried == l.info[k].inTried {
      assert SameButPos(t.info[k], l.info[k]);
    }
    forall k | k in TriedIds(l.info) ensures k in t.info {
      assert k !in Dropped(l, m);
    }
    assert NewIds(l.info, {}) == NewIds(t.info, {}) + Dropped(l, m);
    assert NewIds(t.info, {}) !! Dropped(l, m);
  }

  /** What is left after pruning is consistent if and only if every entry that stays fits in. */
  lemma PrunedIsConsistent(salt: Salt, l: State, t: State, m: int)
    requires Raw(salt, l, m) && Counted(l, m) && Pruned(l, t, m)
    ensures Inv(salt, t) <==> AllFit(l)
  {
    hide Info.TriedSlot;
    if AllFit(l) {
      forall k | k in t.info ensures InfoOk(t, k, {}) {
        PrunedEntry(salt, l, t, m, k);
      }
      PrunedTables(salt, l, t, m);
      PrunedIndexes(l, t, m);
      PrunedCounts(l, t, m);
    }
    if Inv(salt, t) {
      ConsistentFits(salt, l, t, m);
    }
  }
}
