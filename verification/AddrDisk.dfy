/** Saving the address manager and loading it again (`Serialize` and `Unserialize` in src/addrman.h).

    Only the records, the new table and the counters are written; ids, the tried table, the address
    index and the random order are rebuilt. A consistent manager comes back complete, with its
    entries renumbered. */
module AddrDisk {
  import opened Common
  import opened AddrState
  import opened AddrOps
  import opened AddrRaw

  const FORMAT_BIT: bv32 := 0x4000_0000

  /** What is written. The records hold no ids; `buckets` lists, for each new bucket, the numbers of
      the records in it. */
  datatype Stream = Stream(
    version: nat, keySize: nat, key: nat, nNew: int, nTried: int, nUBuckets: bv32,
    newRecords: seq<Info>, triedRecords: seq<Info>, buckets: seq<seq<int>>)

  datatype Loaded = Failed | Loaded(key: nat, state: State)

  /** The hash functions that belong to each key. */
  type Keyed = nat -> Salt

  // ---------------------------------------------------------------- what a good file is

  /** The ids of a manager in the order of the file: new entries, then tried ones. */
  ghost predicate IsOrder(s: State, ids: seq<int>) {
    && |ids| == s.nNew + s.nTried && 0 <= s.nNew <= |ids|
    && (forall j, k | 0 <= j < k < |ids| :: ids[j] != ids[k])
    && (forall k | 0 <= k < |ids| :: ids[k] in s.info && (s.info[ids[k]].inTried <==> s.nNew <= k))
    && (forall n | n in s.info :: n in ids)
  }

  ghost function IndexOf(ids: seq<int>, n: int): (k: int)
    requires n in ids
    ensures 0 <= k < |ids| && ids[k] == n
  {
    var k :| 0 <= k < |ids| && ids[k] == n;
    k
  }

  /** The record numbers in the first `i` positions of bucket `b`. */
  ghost function Listing(s: State, ids: seq<int>, b: int, i: nat): seq<int>
    decreases i
  {
    if i == 0 then [] else
    var rest := Listing(s, ids, b, i - 1);
    if (b, i - 1) in s.unk && s.unk[(b, i - 1)] in ids then rest + [IndexOf(ids, s.unk[(b, i - 1)])] else rest
  }

  ghost predicate IsFileOf(s: State, ids: seq<int>, f: Stream) {
    && IsOrder(s, ids)
    && f.version == 1 && f.keySize == 32
    && f.nUBuckets == (NEW_BUCKET_COUNT as bv32) ^ FORMAT_BIT
    && f.nNew == s.nNew == |f.newRecords|
    && f.nTried == s.nTried == |f.triedRecords|
    && (forall k | 0 <= k < s.nNew :: f.newRecords[k] == Record(s.info[ids[k]]))
    && (forall k | 0 <= k < s.nTried :: f.triedRecords[k] == Record(s.info[ids[s.nNew + k]]))
    && |f.buckets| == NEW_BUCKET_COUNT
    && (forall b | 0 <= b < NEW_BUCKET_COUNT :: f.buckets[b] == Listing(s, ids, b, BUCKET_SIZE))
  }

  // ---------------------------------------------------------------- Serialize

  lemma NewCountsLeft(salt: Salt, s: State, done: seq<int>, n: int)
    requires Inv(salt, s) && IsNew(s.info, {}, n) && n !in done
    requires forall j, k | 0 <= j < k < |done| :: done[j] != done[k]
    requires forall k | 0 <= k < |done| :: IsNew(s.info, {}, done[k])
    ensures |done| < s.nNew
  {
    var seen := set k | 0 <= k < |done| :: done[k];
    SeqSetCardinality(done, seen);
    assert seen <= NewIds(s.info, {}) - {n};
    SmallerSet(seen, NewIds(s.info, {}) - {n});
  }

  lemma TriedCountsLeft(salt: Salt, s: State, done: seq<int>, n: int)
    requires Inv(salt, s) && IsTried(s.info, n) && n !in done
    requires forall j, k | 0 <= j < k < |done| :: done[j] != done[k]
    requires forall k | 0 <= k < |done| :: IsTried(s.info, done[k])
    ensures |done| < s.nTried
  {
    var seen := set k | 0 <= k < |done| :: done[k];
    SeqSetCardinality(done, seen);
    assert seen <= TriedIds(s.info) - {n};
    SmallerSet(seen, TriedIds(s.info) - {n});
  }

  lemma AllCounted(salt: Salt, s: State, newIds: seq<int>, triedIds: seq<int>)
    requires Inv(salt, s)
    requires forall j, k | 0 <= j < k < |newIds| :: newIds[j] != newIds[k]
    requires forall j, k | 0 <= j < k < |triedIds| :: triedIds[j] != triedIds[k]
    requires forall n :: n in newIds <==> IsNew(s.info, {}, n)
    requires forall n :: n in triedIds <==> IsTried(s.info, n)
    ensures |newIds| == s.nNew && |triedIds| == s.nTried && IsOrder(s, newIds + triedIds)
  {
    NewListSize(salt, s, newIds);
    TriedListSize(salt, s, triedIds);
    hide Inv;
    ListsAreOrder(s, newIds, triedIds);
  }

  lemma NewListSize(salt: Salt, s: State, newIds: seq<int>)
    requires Inv(salt, s)
    requires forall j, k | 0 <= j < k < |newIds| :: newIds[j] != newIds[k]
    requires forall n :: n in newIds <==> IsNew(s.info, {}, n)
    ensures |newIds| == s.nNew
  {
    assert s.nNew == |NewIds(s.info, {})|;
    hide Inv;
    forall n ensures n in newIds <==> n in NewIds(s.info, {}) {
      assert n in newIds <==> IsNew(s.info, {}, n);
    }
    SizeOfList(newIds, NewIds(s.info, {}));
  }

  lemma TriedListSize(salt: Salt, s: State, triedIds: seq<int>)
    requires Inv(salt, s)
    requires forall j, k | 0 <= j < k < |triedIds| :: triedIds[j] != triedIds[k]
    requires forall n :: n in triedIds <==> IsTried(s.info, n)
    ensures |triedIds| == s.nTried
  {
    assert s.nTried == |TriedIds(s.info)|;
    hide Inv;
    forall n ensures n in triedIds <==> n in TriedIds(s.info) {
      assert n in triedIds <==> IsTried(s.info, n);
    }
    SizeOfList(triedIds, TriedIds(s.info));
  }

  lemma ListsAreOrder(s: State, newIds: seq<int>, triedIds: seq<int>)
    requires |newIds| == s.nNew && |triedIds| == s.nTried
    requires forall j, k | 0 <= j < k < |newIds| :: newIds[j] != newIds[k]
    requires forall j, k | 0 <= j < k < |triedIds| :: triedIds[j] != triedIds[k]
    requires forall n :: n in newIds <==> IsNew(s.info, {}, n)
    requires forall n :: n in triedIds <==> IsTried(s.info, n)
    ensures IsOrder(s, newIds + triedIds)
  {
    var ids := newIds + triedIds;
    forall n | n in s.info ensures n in ids {
      assert IsNew(s.info, {}, n) || IsTried(s.info, n);
    }
    forall k | 0 <= k < |ids| ensures ids[k] in s.info && (s.info[ids[k]].inTried <==> s.nNew <= k) {
      if k < |newIds| {
        assert ids[k] in newIds && IsNew(s.info, {}, ids[k]);
      } else {
        assert ids[k] == triedIds[k - |newIds|] && ids[k] in triedIds && IsTried(s.info, ids[k]);
      }
    }
    forall j, k | 0 <= j < k < |ids| ensures ids[j] != ids[k] {
      if j < |newIds| <= k {
        assert s.info[ids[j]].inTried != s.info[ids[k]].inTried;
      }
    }
  }

  lemma SizeOfList(list: seq<int>, ids: set<int>)
    requires forall j, k | 0 <= j < k < |list| :: list[j] != list[k]
    requires forall n :: n in list <==> n in ids
    ensures |list| == |ids|
  {
    SeqSetCardinality(list, ids) by {
      forall n ensures n in ids <==> n in (set k | 0 <= k < |list| :: list[k]) {
        assert n in list <==> n in ids;
      }
    }
  }

  lemma RefCountTells(salt: Salt, s: State, n: int)
    requires Inv(salt, s) && n in s.info
    ensures 0 <= n < s.idCount
    ensures s.info[n].refCount != 0 <==> IsNew(s.info, {}, n)
  {
    EntryBasics(salt, s, n);
  }

  /** The records of the new entries, and the number each gets. */
  method WriteNew(salt: Salt, s: State) returns (records: seq<Info>, mapUnkIds: map<int, int>, ghost newIds: seq<int>)
    requires Inv(salt, s)
    ensures |records| == |newIds|
    ensures forall j, k | 0 <= j < k < |newIds| :: newIds[j] != newIds[k]
    ensures forall n :: n in newIds <==> IsNew(s.info, {}, n)
    ensures forall k | 0 <= k < |newIds| :: newIds[k] in s.info && records[k] == Record(s.info[newIds[k]])
    ensures forall n | n in newIds :: n in mapUnkIds && 0 <= mapUnkIds[n] < |newIds| && newIds[mapUnkIds[n]] == n
  {
    hide Inv;
    records, mapUnkIds, newIds := [], map[], [];
    var nIds := 0;
    var id := 0;
    while id < s.idCount
      invariant 0 <= id
      invariant nIds == |records| == |newIds|
      invariant forall j, k | 0 <= j < k < |newIds| :: newIds[j] != newIds[k]
      invariant forall n :: n in newIds <==> IsNew(s.info, {}, n) && 0 <= n < id
      invariant forall k | 0 <= k < |newIds| :: newIds[k] in s.info && records[k] == Record(s.info[newIds[k]])
      invariant forall n | n in newIds :: n in mapUnkIds && 0 <= mapUnkIds[n] < |newIds| && newIds[mapUnkIds[n]] == n
    {
      if id in s.info {
        mapUnkIds := mapUnkIds[id := nIds];
        RefCountTells(salt, s, id);
        if s.info[id].refCount != 0 {
          NewCountsLeft(salt, s, newIds, id);
          assert nIds != s.nNew;
          records := records + [Record(s.info[id])];
          newIds := newIds + [id];
          nIds := nIds + 1;
        }
      }
      id := id + 1;
    }
    forall n | IsNew(s.info, {}, n) ensures n in newIds {
      RefCountTells(salt, s, n);
    }
  }

  method WriteTried(salt: Salt, s: State) returns (records: seq<Info>, ghost triedIds: seq<int>)
    requires Inv(salt, s)
    ensures |records| == |triedIds|
    ensures forall j, k | 0 <= j < k < |triedIds| :: triedIds[j] != triedIds[k]
    ensures forall n :: n in triedIds <==> IsTried(s.info, n)
    ensures forall k | 0 <= k < |triedIds| :: triedIds[k] in s.info && records[k] == Record(s.info[triedIds[k]])
  {
    hide Inv;
    records, triedIds := [], [];
    var nIds := 0;
    var id := 0;
    while id < s.idCount
      invariant 0 <= id
      invariant nIds == |records| == |triedIds|
      invariant forall j, k | 0 <= j < k < |triedIds| :: triedIds[j] != triedIds[k]
      invariant forall n :: n in triedIds <==> IsTried(s.info, n) && 0 <= n < id
      invariant forall k | 0 <= k < |triedIds| :: triedIds[k] in s.info && records[k] == Record(s.info[triedIds[k]])
    {
      if id in s.info && s.info[id].inTried {
        TriedCountsLeft(salt, s, triedIds, id);
        assert nIds != s.nTried;
        records := records + [Record(s.info[id])];
        triedIds := triedIds + [id];
        nIds := nIds + 1;
      }
      id := id + 1;
    }
    forall n | IsTried(s.info, n) ensures n in triedIds {
      RefCountTells(salt, s, n);
    }
  }

  method WriteBucket(salt: Salt, s: State, mapUnkIds: map<int, int>, b: int, ghost ids: seq<int>) returns (listing: seq<int>)
    requires Inv(salt, s) && IsOrder(s, ids)
    requires forall n | IsNew(s.info, {}, n) :: n in mapUnkIds && 0 <= mapUnkIds[n] < |ids| && ids[mapUnkIds[n]] == n
    ensures listing == Listing(s, ids, b, BUCKET_SIZE)
  {
    hide Inv;
    listing := [];
    for i := 0 to BUCKET_SIZE
      invariant listing == Listing(s, ids, b, i)
    {
      if (b, i) in s.unk {
        NewSlotHolds(salt, s, (b, i));
        assert IsNew(s.info, {}, s.unk[(b, i)]);
        listing := listing + [mapUnkIds[s.unk[(b, i)]]];
      }
    }
  }

  /** `Serialize`. The counters are right, so its two assertions hold. */
  method Serialize(keyed: Keyed, key: nat, s: State) returns (f: Stream, ghost ids: seq<int>)
    requires Inv(keyed(key), s)
    ensures IsFileOf(s, ids, f) && f.key == key
  {
    hide Inv, Listing;
    var salt := keyed(key);
    var newRecords, mapUnkIds, newIds := WriteNew(salt, s);
    var triedRecords, triedIds := WriteTried(salt, s);
    AllCounted(salt, s, newIds, triedIds);
    ids := newIds + triedIds;
    forall n | IsNew(s.info, {}, n) ensures n in mapUnkIds && 0 <= mapUnkIds[n] < |ids| && ids[mapUnkIds[n]] == n {
      assert n in newIds;
    }
    var buckets := [];
    for b := 0 to NEW_BUCKET_COUNT
      invariant |buckets| == b
      invariant forall c | 0 <= c < b :: buckets[c] == Listing(s, ids, c, BUCKET_SIZE)
    {
      var listing := WriteBucket(salt, s, mapUnkIds, b, ids);
      buckets := buckets + [listing];
    }
    f := Stream(1, 32, key, s.nNew, s.nTried, (NEW_BUCKET_COUNT as bv32) ^ FORMAT_BIT, newRecords, triedRecords, buckets);
  }

  // ---------------------------------------------------------------- Unserialize

  /** The entry a manager copied from `s` has at number `k`. */
  function Copied(s: State, ids: seq<int>, k: int): Info
    requires 0 <= k < |ids| && ids[k] in s.info
  {
    Record(s.info[ids[k]]).(inTried := s.info[ids[k]].inTried, randomPos := k)
  }

  /** Everything about a peer is written and read back but when it was last tried. */
  ghost predicate SameRecord(i: Info, j: Info) {
    && i.addr == j.addr && i.port == j.port && i.time == j.time && i.services == j.services && i.source == j.source
    && i.lastSuccess == j.lastSuccess && i.attempts == j.attempts && i.lastTry == 0 && i.lastCountAttempt == 0
  }

  lemma CopiedRecords(s: State, t: State, ids: seq<int>)
    requires IsCopy(s, t, ids)
    ensures forall k | 0 <= k < |ids| ::
              && ids[k] in s.info && k in t.info && SameRecord(t.info[k], s.info[ids[k]])
              && t.info[k].inTried == s.info[ids[k]].inTried && t.info[k].refCount == s.info[ids[k]].refCount
    ensures forall n | n in s.info :: exists k | 0 <= k < |ids| :: ids[k] == n
  {
    forall n | n in s.info ensures exists k | 0 <= k < |ids| :: ids[k] == n {
      assert n in ids;
    }
  }

  /** What is loaded from any file are its records. */
  lemma LoadedRecords(salt: Salt, f: Stream, l: State)
    requires FromFile(salt, f, l)
    ensures forall k | 0 <= k < f.nNew :: k in l.info && SameRecord(l.info[k], f.newRecords[k])
    ensures forall k | k in l.info && f.nNew <= k :: exists r | 0 <= r < f.nTried :: SameRecord(l.info[k], f.triedRecords[r])
  {
    hide Raw, Info.TriedSlot;
    forall k | 0 <= k < f.nNew ensures k in l.info && SameRecord(l.info[k], f.newRecords[k]) {
      assert l.info[k].Facts() == Record(f.newRecords[k]);
    }
    forall k | k in l.info && f.nNew <= k ensures exists r | 0 <= r < f.nTried :: SameRecord(l.info[k], f.triedRecords[r]) {
      var r :| 0 <= r < f.nTried && l.info[k].Facts() == Record(f.triedRecords[r]);
      assert SameRecord(l.info[k], f.triedRecords[r]);
    }
  }

  /** `t` is `s` with `ids[k]` renumbered to `k`: same records, same slots, same counters. */
  ghost predicate IsCopy(s: State, t: State, ids: seq<int>) {
    && IsOrder(s, ids)
    && t.idCount == |ids| && t.nNew == s.nNew && t.nTried == s.nTried
    && |t.random| == |ids| && (forall k | 0 <= k < |ids| :: t.random[k] == k)
    && (forall k :: k in t.info <==> 0 <= k < |ids|)
    && (forall k | 0 <= k < |ids| :: t.info[k] == Copied(s, ids, k).(refCount := s.info[ids[k]].refCount))
    && t.addrs.Keys == s.addrs.Keys
    && (forall a | a in t.addrs :: 0 <= t.addrs[a] < |ids| && ids[t.addrs[a]] == s.addrs[a])
    && t.tried.Keys == s.tried.Keys
    && (forall slot | slot in t.tried :: 0 <= t.tried[slot] < |ids| && ids[t.tried[slot]] == s.tried[slot])
    && t.unk.Keys == s.unk.Keys
    && (forall slot | slot in t.unk :: 0 <= t.unk[slot] < |ids| && ids[t.unk[slot]] == s.unk[slot])
  }

  /** The first `m` entries are loaded and indexed. */
  ghost predicate PartialInfos(s: State, t: State, ids: seq<int>, m: int) {
    && 0 <= m <= |ids|
    && |t.random| == m && (forall k | 0 <= k < m :: t.random[k] == k)
    && (forall k :: k in t.info <==> 0 <= k < m)
    && (forall k | 0 <= k < m :: ids[k] in s.info && t.info[k] == Copied(s, ids, k))
    && (forall k | 0 <= k < m :: t.info[k].addr in t.addrs && t.addrs[t.info[k].addr] == k)
    && (forall a | a in t.addrs :: 0 <= t.addrs[a] < m && t.info[t.addrs[a]].addr == a)
  }

  /** Before the new table is read. */
  ghost predicate Partial(salt: Salt, s: State, t: State, ids: seq<int>, m: int) {
    && t.nNew == s.nNew && t.nTried == s.nTried && t.unk == map[]
    && PartialInfos(s, t, ids, m)
    && PartialTried(salt, t)
  }

  /** Different entries have different addresses, and different tried entries different slots. */
  lemma EntriesDiffer(salt: Salt, s: State, n: int, m: int)
    requires Inv(salt, s) && n in s.info && m in s.info && n != m
    ensures s.info[n].addr != s.info[m].addr
    ensures s.info[n].inTried && s.info[m].inTried ==> s.info[n].TriedSlot(salt) != s.info[m].TriedSlot(salt)
  {
    EntryBasics(salt, s, n);
    EntryBasics(salt, s, m);
  }

  lemma LoadInfosStep(salt: Salt, s: State, t: State, ids: seq<int>, m: int)
    requires Inv(salt, s) && IsOrder(s, ids) && PartialInfos(s, t, ids, m) && m < |ids|
    ensures PartialInfos(s, LoadInfo(t, Copied(s, ids, m), m), ids, m + 1)
  {
    hide Inv, Info.TriedSlot;
    var a := s.info[ids[m]].addr;
    if a in t.addrs {
      EntriesDiffer(salt, s, ids[t.addrs[a]], ids[m]);
      assert false;
    }
    PutInfoStep(s, t, ids, m);
  }

  lemma PutInfoStep(s: State, t: State, ids: seq<int>, m: int)
    requires PartialInfos(s, t, ids, m) && m < |ids| && ids[m] in s.info && s.info[ids[m]].addr !in t.addrs
    ensures PartialInfos(s, LoadInfo(t, Copied(s, ids, m), m), ids, m + 1)
  {
    assert Copied(s, ids, m).(randomPos := m) == Copied(s, ids, m);
  }

  lemma LoadNewStep(salt: Salt, s: State, t: State, ids: seq<int>, m: int)
    requires Inv(salt, s) && IsOrder(s, ids) && Partial(salt, s, t, ids, m) && m < s.nNew
    ensures Partial(salt, s, LoadInfo(t, Record(s.info[ids[m]]), m), ids, m + 1)
  {
    hide Inv, Info.TriedSlot;
    LoadInfosStep(salt, s, t, ids, m);
    assert LoadInfo(t, Record(s.info[ids[m]]), m) == LoadInfo(t, Copied(s, ids, m), m);
  }

  lemma TriedIsFree(salt: Salt, s: State, t: State, ids: seq<int>, m: int)
    requires Inv(salt, s) && IsOrder(s, ids) && Partial(salt, s, t, ids, m) && s.nNew <= m < |ids|
    ensures Copied(s, ids, m).TriedSlot(salt) !in t.tried
  {
    hide Inv, Info.TriedSlot;
    var slot := Copied(s, ids, m).TriedSlot(salt);
    if slot in t.tried {
      var k := t.tried[slot];
      EntriesDiffer(salt, s, ids[k], ids[m]);
      SamePeerSameSlot(salt, t.info[k], s.info[ids[k]]);
      SamePeerSameSlot(salt, Copied(s, ids, m), s.info[ids[m]]);
    }
  }

  lemma PutTriedStep(salt: Salt, t: State, i: Info, m: int)
    requires PartialTried(salt, t) && m !in t.info && i.inTried && i.TriedSlot(salt) !in t.tried && i.randomPos == |t.random|
    ensures PartialTried(salt, LoadInfo(t, i, m).(tried := t.tried[i.TriedSlot(salt) := m]))
  {
    hide Info.TriedSlot;
    assert i.(randomPos := |t.random|) == i;
  }

  lemma LoadTriedStep(salt: Salt, s: State, t: State, ids: seq<int>, m: int)
    requires Inv(salt, s) && IsOrder(s, ids) && Partial(salt, s, t, ids, m) && s.nNew <= m < |ids|
    ensures var i := Copied(s, ids, m);
            && i.TriedSlot(salt) !in t.tried
            && Partial(salt, s, LoadInfo(t, i, m).(tried := t.tried[i.TriedSlot(salt) := m]), ids, m + 1)
  {
    hide Inv, Info.TriedSlot, PartialTried;
    TriedIsFree(salt, s, t, ids, m);
    LoadInfosStep(salt, s, t, ids, m);
    PutTriedStep(salt, t, Copied(s, ids, m), m);
  }

  // reading the positions in the new table

  ghost predicate FilledSlots(s: State, t: State, ids: seq<int>, b: int, i: int) {
    && (forall slot :: slot in t.unk <==> slot in s.unk && Before(slot, b, i))
    && (forall slot | slot in t.unk :: 0 <= t.unk[slot] < |ids| && ids[t.unk[slot]] == s.unk[slot])
  }

  ghost predicate FilledInfos(s: State, t: State, ids: seq<int>, b: int, i: int) {
    && (forall k :: k in t.info <==> 0 <= k < |ids|)
    && (forall k | 0 <= k < |ids| :: ids[k] in s.info && t.info[k] == Copied(s, ids, k).(refCount := |Seen(s, ids[k], b, i)|))
  }

  /** The slots up to position `i` of bucket `b` are filled, the others are free. */
  ghost predicate Filled(salt: Salt, s: State, t: State, ids: seq<int>, b: int, i: int) {
    FilledSlots(s, t, ids, b, i) && FilledInfos(s, t, ids, b, i)
  }

  lemma FilledStart(salt: Salt, s: State, t: State, ids: seq<int>)
    requires Inv(salt, s) && IsOrder(s, ids) && Partial(salt, s, t, ids, |ids|)
    ensures Filled(salt, s, t, ids, 0, 0)
  {
    forall slot | slot in s.unk ensures !Before(slot, 0, 0) {
      assert NewSlotOk(salt, s, slot);
    }
    forall k | 0 <= k < |ids| ensures t.info[k] == Copied(s, ids, k).(refCount := |Seen(s, ids[k], 0, 0)|) {
      assert Seen(s, ids[k], 0, 0) == {};
    }
  }

  /** Positions without an entry can be passed over. */
  lemma FilledSkip(salt: Salt, s: State, t: State, ids: seq<int>, b: int, i: int, c: int, j: int)
    requires Filled(salt, s, t, ids, b, i)
    requires forall slot | slot in s.unk :: Before(slot, b, i) <==> Before(slot, c, j)
    ensures Filled(salt, s, t, ids, c, j)
  {
    forall k | 0 <= k < |ids| ensures Seen(s, ids[k], b, i) == Seen(s, ids[k], c, j) {
    }
  }

  /** The next listed record goes exactly where it came from, and nothing is in its way. */
  lemma FillFits(salt: Salt, s: State, t: State, ids: seq<int>, b: int, i: int, k: int)
    requires Inv(salt, s) && IsOrder(s, ids) && Filled(salt, s, t, ids, b, i)
    requires (b, i) in s.unk && 0 <= k < |ids| && ids[k] == s.unk[(b, i)]
    ensures k < s.nNew && (b, i) !in t.unk && k in t.info
    ensures t.info[k].BucketPosition(salt, true, b) == i && t.info[k].refCount < NEW_BUCKETS_PER_ADDRESS
  {
    var n := s.unk[(b, i)];
    assert NewSlotOk(salt, s, (b, i));
    assert InfoOk(s, n, {}) && s.info[n].refCount == |SlotsOf(s.unk, n)|;
    hide Inv, Info.BucketPosition;
    SamePeerSamePosition(salt, t.info[k], s.info[n], b);
    SeenStep(s, n, b, i);
  }

  lemma FillStep(salt: Salt, s: State, t: State, ids: seq<int>, b: int, i: int, k: int)
    requires IsOrder(s, ids) && Filled(salt, s, t, ids, b, i)
    requires (b, i) in s.unk && 0 <= k < |ids| && ids[k] == s.unk[(b, i)]
    ensures k in t.info && Filled(salt, s, PutNew(t, k, (b, i)), ids, b, i + 1)
  {
    FillStepInfos(s, t, ids, b, i, k);
    FillStepSlots(s, t, ids, b, i, k);
  }

  lemma FillStepSlots(s: State, t: State, ids: seq<int>, b: int, i: int, k: int)
    requires FilledSlots(s, t, ids, b, i) && k in t.info
    requires (b, i) in s.unk && 0 <= k < |ids| && ids[k] == s.unk[(b, i)]
    ensures FilledSlots(s, PutNew(t, k, (b, i)), ids, b, i + 1)
  {
    forall slot: Slot ensures slot == (b, i) || Before(slot, b, i) <==> Before(slot, b, i + 1) {
      assert slot == (slot.0, slot.1);
    }
  }

  lemma FillStepInfos(s: State, t: State, ids: seq<int>, b: int, i: int, k: int)
    requires (b, i) in s.unk && 0 <= k < |ids| && ids[k] == s.unk[(b, i)]
    requires forall j, l | 0 <= j < l < |ids| :: ids[j] != ids[l]
    requires FilledInfos(s, t, ids, b, i)
    ensures k in t.info && FilledInfos(s, PutNew(t, k, (b, i)), ids, b, i + 1)
  {
    var u := PutNew(t, k, (b, i));
    forall j | 0 <= j < |ids| ensures u.info[j] == Copied(s, ids, j).(refCount := |Seen(s, ids[j], b, i + 1)|) {
      SeenStep(s, ids[j], b, i);
    }
  }

  ghost predicate AllListed(s: State, ids: seq<int>) {
    forall slot | slot in s.unk :: s.unk[slot] in ids
  }

  lemma SlotsAreListed(salt: Salt, s: State, ids: seq<int>)
    requires Inv(salt, s) && IsOrder(s, ids)
    ensures AllListed(s, ids)
  {
    forall slot | slot in s.unk ensures s.unk[slot] in ids {
      assert NewSlotOk(salt, s, slot);
    }
  }

  lemma {:induction false} ListingPrefix(s: State, ids: seq<int>, b: int, i: nat, j: nat)
    requires i <= j
    ensures Listing(s, ids, b, i) <= Listing(s, ids, b, j)
    decreases j - i
  {
    if i < j {
      ListingPrefix(s, ids, b, i, j - 1);
    }
  }

  /** Where the record that a listing names next came from. */
  lemma {:induction false} NextListed(s: State, ids: seq<int>, b: int, i: nat, j: nat) returns (p: nat)
    requires i <= BUCKET_SIZE && AllListed(s, ids)
    requires j < |Listing(s, ids, b, BUCKET_SIZE)| && Listing(s, ids, b, i) == Listing(s, ids, b, BUCKET_SIZE)[..j]
    ensures i <= p < BUCKET_SIZE && (b, p) in s.unk && s.unk[(b, p)] in ids
    ensures forall q | i <= q < p :: (b, q) !in s.unk
    ensures Listing(s, ids, b, BUCKET_SIZE)[j] == IndexOf(ids, s.unk[(b, p)])
    ensures Listing(s, ids, b, p + 1) == Listing(s, ids, b, BUCKET_SIZE)[..j + 1]
    decreases BUCKET_SIZE - i
  {
    ListingPrefix(s, ids, b, i + 1, if i < BUCKET_SIZE then BUCKET_SIZE else i + 1);
    if (b, i) in s.unk && i < BUCKET_SIZE {
      p := i;
    } else {
      assert i < BUCKET_SIZE;
      p := NextListed(s, ids, b, i + 1, j);
    }
  }

  lemma {:induction false} NothingMore(s: State, ids: seq<int>, b: int, i: nat, q: nat)
    requires i <= q < BUCKET_SIZE && AllListed(s, ids)
    requires |Listing(s, ids, b, i)| == |Listing(s, ids, b, BUCKET_SIZE)|
    ensures (b, q) !in s.unk
  {
    ListingPrefix(s, ids, b, i, q);
    ListingPrefix(s, ids, b, q + 1, BUCKET_SIZE);
  }

  lemma SkipAhead(s: State, b: int, i: int, p: int)
    requires i <= p && forall q | i <= q < p :: (b, q) !in s.unk
    ensures forall slot | slot in s.unk :: Before(slot, b, i) <==> Before(slot, b, p)
  {
    forall slot | slot in s.unk ensures Before(slot, b, i) <==> Before(slot, b, p) {
      assert slot == (slot.0, slot.1);
    }
  }

  /** The listing is that of bucket `b` of a consistent manager whose earlier buckets are read. */
  ghost predicate Readable(salt: Salt, s: State, t: State, ids: seq<int>, b: int, listing: seq<int>) {
    && Inv(salt, s) && IsOrder(s, ids)
    && Filled(salt, s, t, ids, b, 0) && t.nNew == s.nNew
    && listing == Listing(s, ids, b, BUCKET_SIZE)
  }

  /** Every record listed before position `i` of bucket `b` has its slot there in use, or all the references it can
      have; and only listed records have references. */
  ghost predicate Served(salt: Salt, f: Stream, t: State, b: int, i: int) {
    && (forall c, n | 0 <= c <= b && c < |f.buckets| && 0 <= n < |f.buckets[c]| && (c < b || n < i) ::
          ServedOne(salt, t, c, f.buckets[c][n]))
    && (forall slot | slot in t.unk :: 0 <= slot.0 < |f.buckets| && t.unk[slot] in f.buckets[slot.0])
  }

  ghost predicate ServedOne(salt: Salt, t: State, c: int, k: int) {
    0 <= k < t.nNew && k in t.info ==>
      (c, t.info[k].BucketPosition(salt, true, c)) in t.unk || t.info[k].refCount >= NEW_BUCKETS_PER_ADDRESS
  }

  ghost predicate IsBucket(f: Stream, b: int, listing: seq<int>) {
    0 <= b < |f.buckets| && f.buckets[b] == listing
  }

  /** What reading one more number does to that. */
  lemma ServeNext(salt: Salt, f: Stream, t: State, b: int, n: int)
    requires Served(salt, f, t, b, n) && 0 <= b < |f.buckets| && 0 <= n < |f.buckets[b]|
    ensures var k := f.buckets[b][n];
            if 0 <= k < t.nNew && k in t.info then
              var slot := (b, t.info[k].BucketPosition(salt, true, b));
              if slot !in t.unk && t.info[k].refCount < NEW_BUCKETS_PER_ADDRESS then Served(salt, f, PutNew(t, k, slot), b, n + 1)
              else Served(salt, f, t, b, n + 1)
            else Served(salt, f, t, b, n + 1)
  {
    hide Info.BucketPosition;
    var k := f.buckets[b][n];
    if 0 <= k < t.nNew && k in t.info {
      var slot := (b, t.info[k].BucketPosition(salt, true, b));
      var u := PutNew(t, k, slot);
      forall c, m | 0 <= c <= b && 0 <= m < |f.buckets[c]| && (c < b || m < n + 1) ensures ServedOne(salt, u, c, f.buckets[c][m]) {
        SamePeerSamePosition(salt, u.info[k], t.info[k], c);
        if c < b || m < n {
          assert ServedOne(salt, t, c, f.buckets[c][m]);
        }
      }
    }
  }

  lemma NoneServed(salt: Salt, f: Stream, t: State)
    requires t.unk == map[]
    ensures Served(salt, f, t, 0, 0)
  {
  }

  lemma OwnStays(salt: Salt, t: State, u: State, n: int)
    requires OwnSlots(salt, t, n) && u.unk == t.unk && forall k | k in t.info && k < n :: k in u.info && u.info[k] == t.info[k]
    ensures OwnSlots(salt, u, n)
  {
    hide Info.NewSlot;
    assert forall k | 0 <= k < n :: k in u.info && Own(salt, u, k) == Own(salt, t, k);
  }

  lemma ServedRow(salt: Salt, f: Stream, t: State, b: int)
    requires 0 <= b < |f.buckets| && Served(salt, f, t, b, |f.buckets[b]|)
    ensures Served(salt, f, t, b + 1, 0)
  {
  }

  /** Every new record has its slot for its own source in use, the first that comes to it; and no other slot is. */
  ghost predicate OwnSlots(salt: Salt, t: State, n: int) {
    && (forall k | 0 <= k < n :: k in t.info && Own(salt, t, k) in t.unk && t.unk[Own(salt, t, k)] <= k)
    && (forall slot | slot in t.unk :: 0 <= t.unk[slot] < n && t.unk[slot] in t.info && Own(salt, t, t.unk[slot]) == slot)
  }

  ghost function Own(salt: Salt, t: State, k: int): Slot
    requires k in t.info
  {
    t.info[k].NewSlot(salt, t.info[k].source)
  }

  lemma OwnNone(salt: Salt, t: State)
    requires t.unk == map[]
    ensures OwnSlots(salt, t, 0)
  {
  }

  lemma OwnNext(salt: Salt, t: State, n: int, u: State)
    requires OwnSlots(salt, t, n) && n in u.info && 0 <= n
    requires u.unk == if Own(salt, u, n) in t.unk then t.unk else t.unk[Own(salt, u, n) := n]
    requires forall k | 0 <= k < n :: k in u.info && SameButRefs(u.info[k], t.info[k])
    ensures OwnSlots(salt, u, n + 1)
  {
    hide Info.NewSlot;
    forall k | 0 <= k < n ensures k in u.info && k in t.info && Own(salt, u, k) == Own(salt, t, k) {
      SamePeerSameNewSlot(salt, u.info[k], t.info[k], t.info[k].source);
    }
  }

  predicate SameButRefs(i: Info, j: Info) {
    i.addr == j.addr && i.port == j.port && i.source == j.source
  }

  /** Read the listing of one new bucket. A record is given a reference when the slot it hashes to is
      free, which for a file written by a consistent manager is always so. */
  method ReadBucket(salt: Salt, t0: State, listing: seq<int>, b: int, trusted: bool, ghost f: Stream, ghost s: State, ghost ids: seq<int>)
    returns (t: State)
    ensures t == t0.(info := t.info, unk := t.unk)
    ensures 0 <= b && (trusted ==> b < NEW_BUCKET_COUNT) && FromFile(salt, f, t0) ==> FromFile(salt, f, t)
    ensures trusted && Readable(salt, s, t0, ids, b, listing) ==> Filled(salt, s, t, ids, b + 1, 0)
    ensures !trusted ==> t == t0
    ensures trusted && IsBucket(f, b, listing) && Served(salt, f, t0, b, 0) ==> Served(salt, f, t, b + 1, 0)
  {
    hide Inv, Info.BucketPosition, Filled, Listing, FromFile, Served;
    ghost var served := trusted && IsBucket(f, b, listing) && Served(salt, f, t0, b, 0);
    ghost var good := trusted && Readable(salt, s, t0, ids, b, listing);
    ghost var raw := 0 <= b && (trusted ==> b < NEW_BUCKET_COUNT) && FromFile(salt, f, t0);
    t := t0;
    ghost var i := 0;
    if good {
      SlotsAreListed(salt, s, ids);
      ListingStart(s, ids, b);
    }
    for n := 0 to |listing|
      invariant t == t0.(info := t.info, unk := t.unk)
      invariant 0 <= i <= BUCKET_SIZE
      invariant raw ==> FromFile(salt, f, t)
      invariant !trusted ==> t == t0
      invariant served ==> Served(salt, f, t, b, n)
      invariant good ==> Filled(salt, s, t, ids, b, i) && Listing(s, ids, b, i) == listing[..n]
    {
      var k := listing[n];
      ghost var p := i;
      if good {
        p := NextListed(s, ids, b, i, n);
        SkipAhead(s, b, i, p);
        FilledSkip(salt, s, t, ids, b, i, b, p);
        FillFits(salt, s, t, ids, b, p, k);
        FillStep(salt, s, t, ids, b, p, k);
      }
      if served {
        ServeNext(salt, f, t, b, n);
      }
      if 0 <= k < t.nNew && k in t.info {
        var pos := t.info[k].BucketPosition(salt, true, b);
        if trusted && (b, pos) !in t.unk && t.info[k].refCount < NEW_BUCKETS_PER_ADDRESS {
          if raw {
            ReadOne(salt, f, t, k, (b, pos));
          }
          t := PutNew(t, k, (b, pos));
        }
      }
      i := if good then p + 1 else i;
    }
    if served {
      ServedRow(salt, f, t, b);
    }
    if good {
      assert listing[..|listing|] == listing;
      forall q | i <= q < BUCKET_SIZE ensures (b, q) !in s.unk {
        NothingMore(s, ids, b, i, q);
      }
      SkipAhead(s, b, i, BUCKET_SIZE);
      FilledSkip(salt, s, t, ids, b, i, b, BUCKET_SIZE);
      RowEnds(salt, s, b);
      FilledSkip(salt, s, t, ids, b, BUCKET_SIZE, b + 1, 0);
    }
  }

  lemma ReadOne(salt: Salt, f: Stream, t: State, k: int, slot: Slot)
    requires FromFile(salt, f, t) && 0 <= k < t.nNew && k in t.info && 0 <= slot.0 < NEW_BUCKET_COUNT
    requires slot.1 == t.info[k].BucketPosition(salt, true, slot.0)
    requires slot !in t.unk && t.info[k].refCount < NEW_BUCKETS_PER_ADDRESS
    ensures FromFile(salt, f, PutNew(t, k, slot))
  {
    hide Raw, Info.TriedSlot, Info.BucketPosition;
    RawPut(salt, t, t.idCount, k, slot);
    var u := PutNew(t, k, slot);
    forall j | j in u.info && f.nNew <= j ensures IsTriedRecord(f, u.info[j], f.nTried) {
      assert u.info[j] == t.info[j];
    }
  }

  lemma ListingStart(s: State, ids: seq<int>, b: int)
    ensures Listing(s, ids, b, 0) == []
  {
  }

  lemma RowEnds(salt: Salt, s: State, b: int)
    requires Inv(salt, s)
    ensures forall slot | slot in s.unk :: Before(slot, b, BUCKET_SIZE) <==> Before(slot, b + 1, 0)
  {
    forall slot | slot in s.unk ensures Before(slot, b, BUCKET_SIZE) <==> Before(slot, b + 1, 0) {
      assert NewSlotOk(salt, s, slot);
    }
  }

  // ---------------------------------------------------------------- the limits of the format

  lemma {:induction false} IdsFit(table: map<Slot, int>, ids: set<int>)
    requires forall n | n in ids :: HasSlot(table, n)
    ensures |ids| <= |table|
    decreases ids
  {
    if ids != {} {
      var n := Element(ids);
      assert HasSlot(table, n);
      var slot :| slot in table && table[slot] == n;
      forall m | m in ids - {n} ensures HasSlot(table - {slot}, m) {
        assert HasSlot(table, m);
        var other :| other in table && table[other] == m;
        assert other in table - {slot} && (table - {slot})[other] == m;
      }
      IdsFit(table - {slot}, ids - {n});
    }
  }

  ghost predicate HasSlot(table: map<Slot, int>, n: int) {
    exists slot :: slot in table && table[slot] == n
  }

  ghost function Slots(buckets: nat): set<Slot> {
    set b, p | 0 <= b < buckets && 0 <= p < BUCKET_SIZE :: (b, p)
  }

  ghost function Row(b: int, size: nat): set<Slot> {
    set p | 0 <= p < size :: (b, p)
  }

  lemma {:induction false} RowSize(b: int, size: nat)
    ensures |Row(b, size)| == size
  {
    if size > 0 {
      RowSize(b, size - 1);
      assert Row(b, size) == Row(b, size - 1) + {(b, size - 1)};
    }
  }

  lemma {:induction false} SlotsSize(buckets: nat)
    ensures |Slots(buckets)| == buckets * BUCKET_SIZE
  {
    if buckets > 0 {
      SlotsSize(buckets - 1);
      RowSize(buckets - 1, BUCKET_SIZE);
      assert Slots(buckets) == Slots(buckets - 1) + Row(buckets - 1, BUCKET_SIZE);
    } else {
      assert Slots(buckets) == {};
    }
  }

  lemma TableFits(table: map<Slot, int>, ids: set<int>, buckets: nat)
    requires forall n | n in ids :: HasSlot(table, n)
    requires forall slot | slot in table :: 0 <= slot.0 < buckets && 0 <= slot.1 < BUCKET_SIZE
    ensures |ids| <= buckets * BUCKET_SIZE
  {
    IdsFit(table, ids);
    SlotsSize(buckets);
    forall slot | slot in table ensures slot in Slots(buckets) {
      assert slot == (slot.0, slot.1);
    }
    SmallerSet(table.Keys, Slots(buckets));
  }

  /** A consistent manager never exceeds the numbers the format allows. */
  lemma WithinLimits(salt: Salt, s: State)
    requires Inv(salt, s)
    ensures 0 <= s.nNew <= NEW_BUCKET_COUNT * BUCKET_SIZE
    ensures 0 <= s.nTried <= TRIED_BUCKET_COUNT * BUCKET_SIZE
  {
    forall n | n in NewIds(s.info, {}) ensures HasSlot(s.unk, n) {
      assert InfoOk(s, n, {}) && s.info[n].refCount == |SlotsOf(s.unk, n)|;
      var slot := Element(SlotsOf(s.unk, n));
      assert s.unk[slot] == n;
    }
    forall n | n in TriedIds(s.info) ensures HasSlot(s.tried, n) {
      assert s.tried[s.info[n].TriedSlot(salt)] == n;
    }
    forall slot | slot in s.unk ensures 0 <= slot.0 < NEW_BUCKET_COUNT && 0 <= slot.1 < BUCKET_SIZE {
      assert NewSlotOk(salt, s, slot);
    }
    forall slot | slot in s.tried ensures 0 <= slot.0 < TRIED_BUCKET_COUNT && 0 <= slot.1 < BUCKET_SIZE {
      assert TriedSlotOk(salt, s, slot);
    }
    TableFits(s.unk, NewIds(s.info, {}), NEW_BUCKET_COUNT);
    TableFits(s.tried, TriedIds(s.info), TRIED_BUCKET_COUNT);
  }

  // ---------------------------------------------------------------- the whole of Unserialize

  /** The part of a copy that reading the new table leaves alone. */
  ghost predicate CopiedIndexes(s: State, t: State, ids: seq<int>) {
    && t.nNew == s.nNew && t.nTried == s.nTried
    && |t.random| == |ids| && (forall k | 0 <= k < |ids| :: t.random[k] == k)
    && t.addrs.Keys == s.addrs.Keys
    && (forall a | a in t.addrs :: a in s.addrs && 0 <= t.addrs[a] < |ids| && ids[t.addrs[a]] == s.addrs[a])
    && t.tried.Keys == s.tried.Keys
    && (forall slot | slot in t.tried :: slot in s.tried && 0 <= t.tried[slot] < |ids| && ids[t.tried[slot]] == s.tried[slot])
  }

  lemma LoadedAddrs(salt: Salt, s: State, t: State, ids: seq<int>)
    requires Inv(salt, s) && IsOrder(s, ids) && PartialInfos(s, t, ids, |ids|)
    ensures t.addrs.Keys == s.addrs.Keys
    ensures forall a | a in t.addrs :: a in s.addrs && 0 <= t.addrs[a] < |ids| && ids[t.addrs[a]] == s.addrs[a]
  {
    hide Inv;
    forall a | a in t.addrs ensures a in s.addrs && ids[t.addrs[a]] == s.addrs[a] {
      EntryBasics(salt, s, ids[t.addrs[a]]);
    }
    forall a | a in s.addrs ensures a in t.addrs {
      AddrHolds(salt, s, a);
      var n := s.addrs[a];
      assert n in ids;
      var k :| 0 <= k < |ids| && ids[k] == n;
      assert t.info[k].addr == a;
    }
  }

  lemma AddrHolds(salt: Salt, s: State, a: NetAddr)
    requires Inv(salt, s) && a in s.addrs
    ensures s.addrs[a] in s.info && s.info[s.addrs[a]].addr == a
  {
  }

  lemma TriedSlotHolds(salt: Salt, s: State, slot: Slot)
    requires Inv(salt, s) && slot in s.tried
    ensures s.tried[slot] in s.info && s.info[s.tried[slot]].inTried && s.info[s.tried[slot]].TriedSlot(salt) == slot
  {
    assert TriedSlotOk(salt, s, slot);
  }

  lemma LoadedTried(salt: Salt, s: State, t: State, ids: seq<int>)
    requires Inv(salt, s) && IsOrder(s, ids) && PartialInfos(s, t, ids, |ids|) && PartialTried(salt, t)
    ensures t.tried.Keys == s.tried.Keys
    ensures forall slot | slot in t.tried :: slot in s.tried && 0 <= t.tried[slot] < |ids| && ids[t.tried[slot]] == s.tried[slot]
  {
    hide Inv, Info.TriedSlot;
    forall slot | slot in t.tried ensures slot in s.tried && ids[t.tried[slot]] == s.tried[slot] {
      var k := t.tried[slot];
      SamePeerSameSlot(salt, t.info[k], s.info[ids[k]]);
      EntryBasics(salt, s, ids[k]);
    }
    forall slot | slot in s.tried ensures slot in t.tried {
      TriedSlotHolds(salt, s, slot);
      var n := s.tried[slot];
      assert n in ids;
      var k :| 0 <= k < |ids| && ids[k] == n;
      SamePeerSameSlot(salt, t.info[k], s.info[n]);
    }
  }

  lemma AllSeen(salt: Salt, s: State, n: int)
    requires Inv(salt, s) && n in s.info
    ensures |Seen(s, n, NEW_BUCKET_COUNT, 0)| == s.info[n].refCount
    ensures forall slot | slot in s.unk :: Before(slot, NEW_BUCKET_COUNT, 0)
  {
    forall slot | slot in s.unk ensures Before(slot, NEW_BUCKET_COUNT, 0) {
      assert NewSlotOk(salt, s, slot);
    }
    assert Seen(s, n, NEW_BUCKET_COUNT, 0) == SlotsOf(s.unk, n);
  }

  lemma FilledRefs(salt: Salt, s: State, t: State, ids: seq<int>)
    requires Inv(salt, s) && IsOrder(s, ids) && FilledInfos(s, t, ids, NEW_BUCKET_COUNT, 0)
    ensures forall k | 0 <= k < |ids| :: t.info[k] == Copied(s, ids, k).(refCount := s.info[ids[k]].refCount)
    ensures forall k | k in t.info :: t.info[k].inTried || t.info[k].refCount != 0
  {
    hide Inv, Seen;
    forall k | 0 <= k < |ids|
      ensures t.info[k] == Copied(s, ids, k).(refCount := s.info[ids[k]].refCount)
      ensures t.info[k].inTried || t.info[k].refCount != 0
    {
      AllSeen(salt, s, ids[k]);
      EntryBasics(salt, s, ids[k]);
    }
  }

  lemma FilledTable(salt: Salt, s: State, t: State, ids: seq<int>)
    requires Inv(salt, s) && FilledSlots(s, t, ids, NEW_BUCKET_COUNT, 0)
    ensures t.unk.Keys == s.unk.Keys
  {
    forall slot | slot in s.unk ensures Before(slot, NEW_BUCKET_COUNT, 0) {
      assert NewSlotOk(salt, s, slot);
    }
  }

  lemma FilledIsCopy(salt: Salt, s: State, t: State, ids: seq<int>)
    requires Inv(salt, s) && IsOrder(s, ids) && CopiedIndexes(s, t, ids) && Filled(salt, s, t, ids, NEW_BUCKET_COUNT, 0)
    requires t.idCount == |ids|
    ensures IsCopy(s, t, ids)
    ensures forall k | k in t.info :: t.info[k].inTried || t.info[k].refCount != 0
  {
    hide Inv, Copied, Seen;
    FilledRefs(salt, s, t, ids);
    FilledTable(salt, s, t, ids);
  }

  method LoadNew(salt: Salt, f: Stream, trusted: bool, ghost s: State, ghost ids: seq<int>) returns (t: State)
    requires |f.newRecords| >= f.nNew
    ensures Inv(salt, s) && IsFileOf(s, ids, f) && trusted ==> Partial(salt, s, t, ids, s.nNew)
    ensures t.nNew == f.nNew && t.nTried == f.nTried && t.lastGood == 1
    ensures 0 <= f.nNew ==> Raw(salt, t, f.nNew) && NewFrom(f, t, f.nNew)
    ensures if trusted then t.unk == map[] else 0 <= f.nNew ==> OwnSlots(salt, t, f.nNew)
  {
    hide Inv, Partial, Raw, Info.NewSlot, OwnSlots;
    ghost var good := Inv(salt, s) && IsFileOf(s, ids, f) && trusted;
    t := EMPTY.(nNew := f.nNew, nTried := f.nTried);
    var n := 0;
    if good {
      WithinLimits(salt, s);
      PartialStart(salt, s, t, ids);
    }
    RawStart(salt, t);
    OwnNone(salt, t);
    while n < f.nNew
      invariant 0 <= n <= |f.newRecords| && (0 <= f.nNew ==> n <= f.nNew) && t.nNew == f.nNew && t.nTried == f.nTried && t.lastGood == 1
      invariant good ==> n <= s.nNew && Partial(salt, s, t, ids, n)
      invariant Raw(salt, t, n) && NewFrom(f, t, n)
      invariant if trusted then t.unk == map[] else OwnSlots(salt, t, n)
    {
      ghost var before := t;
      if good {
        LoadNewStep(salt, s, t, ids, n);
      }
      RawLoadNew(salt, t, Record(f.newRecords[n]), n);
      t := LoadInfo(t, Record(f.newRecords[n]), n);
      if !trusted {
        var slot := t.info[n].NewSlot(salt, t.info[n].source);
        if slot !in t.unk {
          RawPutFirst(salt, t, n);
          ghost var i := t.info[n];
          t := PutNew(t, n, slot);
          SamePeerSameNewSlot(salt, t.info[n], i, i.source);
        }
        OwnNext(salt, before, n, t);
      }
      n := n + 1;
    }
  }

  /** The first entries are the new records. */
  ghost predicate NewFrom(f: Stream, t: State, n: int)
    requires n <= |f.newRecords|
  {
    forall k | 0 <= k < n :: k in t.info && !t.info[k].inTried && t.info[k].Facts() == Record(f.newRecords[k])
  }

  /** The other entries are tried records, and each of these is there or found its slot taken. */
  ghost predicate TriedFrom(salt: Salt, f: Stream, t: State, n: int)
    requires n <= |f.triedRecords|
  {
    && (forall k | k in t.info && f.nNew <= k :: t.info[k].inTried && IsTriedRecord(f, t.info[k], n))
    && (forall r | 0 <= r < n :: Record(f.triedRecords[r]).TriedSlot(salt) in t.tried)
  }

  ghost predicate IsTriedRecord(f: Stream, i: Info, n: int)
    requires n <= |f.triedRecords|
  {
    exists r | 0 <= r < n :: i.Facts() == Record(f.triedRecords[r])
  }

  /** `l` is what a file with sensible counters leaves before pruning. */
  ghost predicate FromFile(salt: Salt, f: Stream, l: State) {
    && Raw(salt, l, l.idCount) && Counted(l, l.idCount) && l.nNew == f.nNew
    && f.nNew <= |f.newRecords| && NewFrom(f, l, f.nNew)
    && f.nTried <= |f.triedRecords| && TriedFrom(salt, f, l, f.nTried)
  }

  /** The reference that an entry gets for its own source. */
  lemma RawPutFirst(salt: Salt, t: State, n: int)
    requires Raw(salt, t, n + 1) && n in t.info && !t.info[n].inTried && t.info[n].refCount == 0
    requires t.info[n].NewSlot(salt, t.info[n].source) !in t.unk
    ensures Raw(salt, PutNew(t, n, t.info[n].NewSlot(salt, t.info[n].source)), n + 1)
  {
    hide Raw;
    RawPut(salt, t, n + 1, n, t.info[n].NewSlot(salt, t.info[n].source));
  }

  lemma PartialStart(salt: Salt, s: State, t: State, ids: seq<int>)
    requires t == EMPTY.(nNew := s.nNew, nTried := s.nTried)
    ensures Partial(salt, s, t, ids, 0)
  {
  }

  method LoadTried(salt: Salt, f: Stream, t0: State, ghost s: State, ghost ids: seq<int>) returns (t: State)
    requires |f.triedRecords| >= f.nTried
    ensures Inv(salt, s) && IsFileOf(s, ids, f) && Partial(salt, s, t0, ids, s.nNew) ==>
              Partial(salt, s, t, ids, |ids|) && t.idCount == |ids|
    ensures t.nNew == t0.nNew && t.lastGood == t0.lastGood && (f.nTried < 0 ==> t.nTried == t0.nTried)
    ensures RawNew(salt, f, t0) && 0 <= f.nTried ==> FromFile(salt, f, t)
    ensures t.unk == t0.unk && forall k | k in t0.info && k < t0.nNew :: k in t.info && t.info[k] == t0.info[k]
  {
    hide Inv, Partial, Info.TriedSlot, Raw, NewFrom, TriedFrom, FromFile, RawTried;
    ghost var good := Inv(salt, s) && IsFileOf(s, ids, f) && Partial(salt, s, t0, ids, s.nNew);
    ghost var raw := RawNew(salt, f, t0) && 0 <= f.nTried;
    t := t0.(idCount := t0.nNew);
    var lost := 0;
    var n := 0;
    if raw {
      TriedStart(salt, f, t0, t);
    }
    if good {
      WithinLimits(salt, s);
      PartialCounts(salt, s, t0, ids, s.nNew, t.idCount);
    }
    while n < f.nTried
      invariant 0 <= n
      invariant good ==> n <= s.nTried && lost == 0 && t.idCount == s.nNew + n && Partial(salt, s, t, ids, s.nNew + n)
      invariant t.nNew == t0.nNew && t.lastGood == t0.lastGood && t.nTried == t0.nTried && (f.nTried < 0 ==> lost == 0)
      invariant raw ==> n <= f.nTried && RawTried(salt, f, t, n, lost)
      invariant t.unk == t0.unk && t0.nNew <= t.idCount && forall k | k in t0.info && k < t0.nNew :: k in t.info && t.info[k] == t0.info[k]
    {
      var i := Record(f.triedRecords[n]);
      var slot := i.TriedSlot(salt);
      if good {
        WrittenTried(salt, f, s, t, ids, n);
      }
      if raw {
        TriedNext(salt, f, t, n, lost);
      }
      if slot !in t.tried {
        t := LoadInfo(t, i.(inTried := true), t.idCount).(tried := t.tried[slot := t.idCount], idCount := t.idCount + 1);
      } else {
        lost := lost + 1;
      }
      n := n + 1;
    }
    if raw {
      TriedEnd(salt, f, t, lost);
    }
    t := t.(nTried := t.nTried - lost);
  }

  /** A tried record that a consistent manager wrote finds its slot free. */
  lemma WrittenTried(salt: Salt, f: Stream, s: State, t: State, ids: seq<int>, n: int)
    requires Inv(salt, s) && IsFileOf(s, ids, f) && 0 <= n < f.nTried
    requires Partial(salt, s, t, ids, s.nNew + n) && t.idCount == s.nNew + n
    ensures var i := Record(f.triedRecords[n]);
            var slot := i.TriedSlot(salt);
            && slot !in t.tried
            && Partial(salt, s, LoadInfo(t, i.(inTried := true), t.idCount).(tried := t.tried[slot := t.idCount], idCount := t.idCount + 1),
                       ids, s.nNew + n + 1)
  {
    hide Inv, Partial, Info.TriedSlot;
    var m := s.nNew + n;
    var i := Record(f.triedRecords[n]);
    LoadTriedStep(salt, s, t, ids, m);
    SamePeerSameSlot(salt, i, Copied(s, ids, m));
    SameLoad(t, i.(inTried := true), Copied(s, ids, m), m);
    PartialCounts(salt, s, LoadInfo(t, i.(inTried := true), m).(tried := t.tried[i.TriedSlot(salt) := m]), ids, m + 1, m + 1);
  }

  ghost predicate RawNew(salt: Salt, f: Stream, t: State) {
    && 0 <= f.nNew <= |f.newRecords| && f.nTried <= |f.triedRecords|
    && t.nNew == f.nNew && t.nTried == f.nTried && Raw(salt, t, f.nNew) && NewFrom(f, t, f.nNew)
  }

  /** After `n` tried records, `lost` of which found their slot taken. */
  ghost predicate RawTried(salt: Salt, f: Stream, t: State, n: int, lost: int)
    requires n <= |f.triedRecords|
  {
    && 0 <= f.nNew <= |f.newRecords| && t.nNew == f.nNew && t.nTried == f.nTried && 0 <= lost <= n
    && t.idCount == f.nNew + n - lost
    && Raw(salt, t, t.idCount) && NewFrom(f, t, f.nNew) && TriedFrom(salt, f, t, n)
  }

  lemma TriedStart(salt: Salt, f: Stream, t: State, u: State)
    requires RawNew(salt, f, t) && u == t.(idCount := t.nNew) && 0 <= f.nTried
    ensures RawTried(salt, f, u, 0, 0)
  {
    RawCounts(salt, t, f.nNew, u);
  }

  lemma TriedNext(salt: Salt, f: Stream, t: State, n: int, lost: int)
    requires 0 <= n < |f.triedRecords| && RawTried(salt, f, t, n, lost)
    ensures var i := Record(f.triedRecords[n]);
            var slot := i.TriedSlot(salt);
            if slot in t.tried then RawTried(salt, f, t, n + 1, lost + 1)
            else RawTried(salt, f, LoadInfo(t, i.(inTried := true), t.idCount).(tried := t.tried[slot := t.idCount], idCount := t.idCount + 1), n + 1, lost)
  {
    hide Info.TriedSlot, Raw;
    var i := Record(f.triedRecords[n]);
    var slot := i.TriedSlot(salt);
    TriedStays(f, t, n);
    if slot !in t.tried {
      var j := i.(inTried := true);
      var m := t.idCount;
      SamePeerSameSlot(salt, j, i);
      RawLoadTried(salt, t, j, m);
      var u := LoadInfo(t, j, m).(tried := t.tried[slot := m]);
      RawCounts(salt, u, m + 1, u.(idCount := m + 1));
      RawIds(salt, t, m);
      assert u.info[m].Facts() == Record(f.triedRecords[n]);
      assert IsTriedRecord(f, u.info[m], n + 1);
    }
  }

  lemma RawIds(salt: Salt, t: State, m: int)
    requires Raw(salt, t, m)
    ensures 0 <= m && forall k :: k in t.info <==> 0 <= k < m
  {
  }

  lemma TriedStays(f: Stream, t: State, n: int)
    requires n < |f.triedRecords| && forall k | k in t.info && f.nNew <= k :: IsTriedRecord(f, t.info[k], n)
    ensures forall k | k in t.info && f.nNew <= k :: IsTriedRecord(f, t.info[k], n + 1)
  {
    forall k | k in t.info && f.nNew <= k ensures IsTriedRecord(f, t.info[k], n + 1) {
      var r :| 0 <= r < n && t.info[k].Facts() == Record(f.triedRecords[r]);
    }
  }

  lemma TriedEnd(salt: Salt, f: Stream, t: State, lost: int)
    requires 0 <= f.nTried <= |f.triedRecords| && RawTried(salt, f, t, f.nTried, lost)
    ensures FromFile(salt, f, t.(nTried := t.nTried - lost))
  {
    hide Raw;
    RawCounts(salt, t, t.idCount, t.(nTried := t.nTried - lost));
    RawIds(salt, t, t.idCount);
  }

  lemma SameLoad(t: State, i: Info, j: Info, n: int)
    requires SameButPos(i, j)
    ensures LoadInfo(t, i, n) == LoadInfo(t, j, n)
  {
    assert i.(randomPos := |t.random|) == i.(randomPos := 0).(randomPos := |t.random|);
  }

  /** Loading does not look at the id counter. */
  lemma PartialCounts(salt: Salt, s: State, t: State, ids: seq<int>, m: int, c: int)
    requires Partial(salt, s, t, ids, m)
    ensures Partial(salt, s, t.(idCount := c), ids, m) && t.nNew == s.nNew
  {
  }

  method Prune(t0: State, ghost salt: Salt) returns (t: State)
    ensures (forall k | k in t0.info :: t0.info[k].inTried || t0.info[k].refCount != 0) ==> t == t0
    ensures t.nNew <= t0.nNew && t.nTried == t0.nTried && t.lastGood == t0.lastGood
    ensures Raw(salt, t0, t0.idCount) ==> Pruned(t0, t, t0.idCount)
  {
    hide Pruned, Raw, Delete;
    ghost var raw := Raw(salt, t0, t0.idCount);
    t := t0;
    var id := 0;
    if raw {
      RawIds(salt, t0, t0.idCount);
      PruneStart(salt, t0, t0.idCount);
    }
    while id < t0.idCount
      invariant (forall k | k in t0.info :: t0.info[k].inTried || t0.info[k].refCount != 0) ==> t == t0
      invariant t.nNew <= t0.nNew && t.nTried == t0.nTried && t.lastGood == t0.lastGood
      invariant raw ==> id <= t0.idCount && Pruned(t0, t, id)
    {
      if id in t.info && !t.info[id].inTried && t.info[id].refCount == 0 {
        if raw {
          PruneDelete(t0, t, id);
        }
        DeleteCounters(t, id);
        t := Delete(t, id);
      } else if raw {
        PruneSkip(t0, t, id);
      }
      id := id + 1;
    }
  }

  lemma DeleteCounters(t: State, n: int)
    ensures Delete(t, n).nNew <= t.nNew && Delete(t, n).nTried == t.nTried && Delete(t, n).lastGood == t.lastGood
  {
  }

  /** A wrong key size, counters above the limits, or a file that is too short. */
  predicate Unreadable(f: Stream) {
    || f.keySize != 32
    || f.nNew > NEW_BUCKET_COUNT * BUCKET_SIZE || f.nTried > TRIED_BUCKET_COUNT * BUCKET_SIZE
    || |f.newRecords| < f.nNew || |f.triedRecords| < f.nTried
    || |f.buckets| < SignedCount(if f.version != 0 then f.nUBuckets ^ FORMAT_BIT else f.nUBuckets)
  }

  /** The listing of the buckets can be used. */
  predicate Trusted(f: Stream) {
    f.version == 1 && f.nUBuckets ^ FORMAT_BIT == NEW_BUCKET_COUNT as bv32
  }

  /** A negative count reads no bucket. */
  function SignedCount(n: bv32): (c: int)
    ensures 0 <= c && (n == NEW_BUCKET_COUNT as bv32 ==> c == NEW_BUCKET_COUNT)
  {
    if n < 0x8000_0000 then n as int else 0
  }

  /** No address twice, no negative time, and a success for every tried record. */
  ghost predicate PlausibleRecords(f: Stream)
  {
    && f.nNew <= |f.newRecords| && f.nTried <= |f.triedRecords|
    && (forall k | 0 <= k < f.nNew :: f.newRecords[k].lastSuccess >= 0)
    && (forall k | 0 <= k < f.nTried :: f.triedRecords[k].lastSuccess > 0)
    && (forall j, k | 0 <= j < k < f.nNew :: f.newRecords[j].addr != f.newRecords[k].addr)
    && (forall j, k | 0 <= j < k < f.nTried :: f.triedRecords[j].addr != f.triedRecords[k].addr)
    && (forall j, k | 0 <= j < f.nNew && 0 <= k < f.nTried :: f.newRecords[j].addr != f.triedRecords[k].addr)
  }

  lemma PlausibleFit(salt: Salt, f: Stream, l: State)
    requires FromFile(salt, f, l) && PlausibleRecords(f)
    ensures AllFit(l)
  {
    hide Info.TriedSlot;
    forall k | k in l.info && Kept(l, k) ensures FitsIn(l, k) {
      forall j | j in l.info && j != k ensures l.info[j].addr != l.info[k].addr {
        OtherAddress(salt, f, l, if j < k then j else k, if j < k then k else j);
      }
    }
  }

  lemma OtherAddress(salt: Salt, f: Stream, l: State, j: int, k: int)
    requires FromFile(salt, f, l) && PlausibleRecords(f) && j in l.info && k in l.info && j < k
    ensures l.info[j].addr != l.info[k].addr
  {
    hide Info.TriedSlot, RawTable, RawAddrs;
    if f.nNew <= j {
      var p :| 0 <= p < f.nTried && l.info[j].Facts() == Record(f.triedRecords[p]);
      var q :| 0 <= q < f.nTried && l.info[k].Facts() == Record(f.triedRecords[q]);
      if p == q {
        SamePeerSameSlot(salt, l.info[j], l.info[k]);
      }
    }
  }

  /** The records and the new table are read. */
  method ReadTables(salt: Salt, f: Stream, trusted: bool, count: int, ghost s: State, ghost ids: seq<int>) returns (t: State)
    requires |f.newRecords| >= f.nNew && |f.triedRecords| >= f.nTried && 0 <= count <= |f.buckets|
    requires trusted ==> count == NEW_BUCKET_COUNT
    ensures Inv(salt, s) && IsFileOf(s, ids, f) && trusted ==> IsCopy(s, t, ids)
    ensures Inv(salt, s) && IsFileOf(s, ids, f) && trusted ==> forall k | k in t.info :: t.info[k].inTried || t.info[k].refCount != 0
    ensures t.nNew == f.nNew && t.lastGood == 1 && (f.nTried < 0 ==> t.nTried == f.nTried)
    ensures 0 <= f.nNew && 0 <= f.nTried ==> FromFile(salt, f, t)
    ensures if trusted then Served(salt, f, t, count, 0) else 0 <= f.nNew ==> OwnSlots(salt, t, f.nNew)
  {
    hide Inv, Partial, Filled, IsCopy, Listing, FromFile, NewFrom, Raw, OwnSlots, Served;
    ghost var good := Inv(salt, s) && IsFileOf(s, ids, f) && trusted;
    t := LoadNew(salt, f, trusted, s, ids);
    ghost var before := t;
    t := LoadTried(salt, f, t, s, ids);
    if trusted {
      NoneServed(salt, f, t);
    } else if 0 <= f.nNew {
      OwnStays(salt, before, t, f.nNew);
    }
    if good {
      FilledStart(salt, s, t, ids);
      LoadedIndexes(salt, s, t, ids);
    }
    for b := 0 to count
      invariant good ==> Filled(salt, s, t, ids, b, 0) && CopiedIndexes(s, t, ids) && t.idCount == |ids|
      invariant t.nNew == f.nNew && t.lastGood == 1 && (f.nTried < 0 ==> t.nTried == f.nTried)
      invariant 0 <= f.nNew && 0 <= f.nTried ==> FromFile(salt, f, t)
      invariant if trusted then Served(salt, f, t, b, 0) else 0 <= f.nNew ==> OwnSlots(salt, t, f.nNew)
    {
      t := ReadBucket(salt, t, f.buckets[b], b, trusted, f, s, ids);
    }
    if good {
      FilledIsCopy(salt, s, t, ids);
    }
  }

  /** `Unserialize`. A file that a consistent manager wrote loads as a copy of it. Any other file leaves a
      consistent manager if and only if its counters are not negative and every entry that is kept fits in
      with the entries loaded; plausible records always do. */
  method Unserialize(keyed: Keyed, f: Stream, ghost s: State, ghost ids: seq<int>) returns (r: Loaded, ghost loaded: State)
    ensures Inv(keyed(f.key), s) && IsFileOf(s, ids, f) ==> r.Loaded? && r.key == f.key && IsCopy(s, r.state, ids)
    ensures r.Failed? <==> Unreadable(f)
    ensures r.Loaded? ==> r.key == f.key && r.state.lastGood == 1
    ensures r.Loaded? && 0 <= f.nNew && 0 <= f.nTried ==>
              FromFile(keyed(f.key), f, loaded) && (Inv(keyed(f.key), r.state) <==> AllFit(loaded))
    ensures r.Loaded? && 0 <= f.nNew && 0 <= f.nTried ==>
              if Trusted(f) then Served(keyed(f.key), f, loaded, NEW_BUCKET_COUNT, 0) else OwnSlots(keyed(f.key), loaded, f.nNew)
    ensures r.Loaded? && 0 <= f.nNew && 0 <= f.nTried ==> Pruned(loaded, r.state, loaded.idCount)
    ensures r.Loaded? && (f.nNew < 0 || f.nTried < 0) ==> !Inv(keyed(f.key), r.state)
    ensures r.Loaded? && 0 <= f.nNew && 0 <= f.nTried && PlausibleRecords(f) ==> Inv(keyed(f.key), r.state)
  {
    hide Inv, IsCopy, FromFile, AllFit, Pruned, Raw, PlausibleRecords, SignedCount, Served, OwnSlots;
    loaded := EMPTY;
    var salt := keyed(f.key);
    if Inv(salt, s) && IsFileOf(s, ids, f) {
      WithinLimits(salt, s);
    }
    FormatBitIsUndone();
    if f.keySize != 32 {
      return Failed, loaded;
    }
    var nUBuckets := if f.version != 0 then f.nUBuckets ^ FORMAT_BIT else f.nUBuckets;
    if f.nNew > NEW_BUCKET_COUNT * BUCKET_SIZE {
      return Failed, loaded;
    }
    if f.nTried > TRIED_BUCKET_COUNT * BUCKET_SIZE {
      return Failed, loaded;
    }
    var count := SignedCount(nUBuckets);
    if |f.newRecords| < f.nNew || |f.triedRecords| < f.nTried || |f.buckets| < count {
      return Failed, loaded;
    }
    var trusted := f.version == 1 && nUBuckets == NEW_BUCKET_COUNT as bv32;
    var t := ReadTables(salt, f, trusted, count, s, ids);
    loaded := t;
    t := Prune(t, salt);
    if 0 <= f.nNew && 0 <= f.nTried {
      FileIsRaw(salt, f, loaded);
    }
    FileConsistency(salt, f, loaded, t);
    return Loaded(f.key, t), loaded;
  }

  lemma FileConsistency(salt: Salt, f: Stream, l: State, t: State)
    requires 0 <= f.nNew && 0 <= f.nTried ==> FromFile(salt, f, l)
    requires Raw(salt, l, l.idCount) ==> Pruned(l, t, l.idCount)
    requires t.nNew <= l.nNew == f.nNew && t.nTried == l.nTried && (f.nTried < 0 ==> l.nTried == f.nTried)
    ensures 0 <= f.nNew && 0 <= f.nTried ==> (Inv(salt, t) <==> AllFit(l))
    ensures f.nNew < 0 || f.nTried < 0 ==> !Inv(salt, t)
    ensures 0 <= f.nNew && 0 <= f.nTried && PlausibleRecords(f) ==> Inv(salt, t)
  {
    hide Inv, FromFile, AllFit, Pruned, Raw, PlausibleRecords, Counted;
    if 0 <= f.nNew && 0 <= f.nTried {
      FileIsRaw(salt, f, l);
      PrunedIsConsistent(salt, l, t, l.idCount);
      if PlausibleRecords(f) {
        PlausibleFit(salt, f, l);
      }
    } else {
      NegativeCount(salt, t);
    }
  }

  lemma FileIsRaw(salt: Salt, f: Stream, l: State)
    requires FromFile(salt, f, l)
    ensures Raw(salt, l, l.idCount) && Counted(l, l.idCount)
  {
  }

  lemma NegativeCount(salt: Salt, t: State)
    requires t.nNew < 0 || t.nTried < 0
    ensures !Inv(salt, t)
  {
  }

  lemma FormatBitIsUndone()
    ensures ((NEW_BUCKET_COUNT as bv32) ^ FORMAT_BIT) ^ FORMAT_BIT == NEW_BUCKET_COUNT as bv32
    ensures (NEW_BUCKET_COUNT as bv32) < 0x8000_0000 && (NEW_BUCKET_COUNT as bv32) as int == NEW_BUCKET_COUNT
  {
  }

  lemma LoadedIndexes(salt: Salt, s: State, t: State, ids: seq<int>)
    requires Inv(salt, s) && IsOrder(s, ids) && Partial(salt, s, t, ids, |ids|)
    ensures CopiedIndexes(s, t, ids)
  {
    hide Inv, Info.TriedSlot;
    LoadedAddrs(salt, s, t, ids);
    LoadedTried(salt, s, t, ids);
  }

  // ---------------------------------------------------------------- a copy is consistent

  lemma CopyInfo(salt: Salt, s: State, t: State, ids: seq<int>, k: int)
    requires Inv(salt, s) && IsCopy(s, t, ids) && k in t.info
    ensures InfoOk(t, k, {})
  {
    hide Inv, Info.TriedSlot;
    EntryBasics(salt, s, ids[k]);
  }

  lemma CopySlots(salt: Salt, s: State, t: State, ids: seq<int>, k: int)
    requires Inv(salt, s) && IsCopy(s, t, ids) && k in t.info
    ensures t.info[k].inTried ==> t.info[k].TriedSlot(salt) in t.tried && t.tried[t.info[k].TriedSlot(salt)] == k
    ensures t.info[k].refCount == |SlotsOf(t.unk, k)|
  {
    hide Inv, Info.TriedSlot;
    EntryBasics(salt, s, ids[k]);
    SamePeerSameSlot(salt, t.info[k], s.info[ids[k]]);
    assert SlotsOf(t.unk, k) == SlotsOf(s.unk, ids[k]);
    RefsAreSlots(salt, s, ids[k]);
  }

  lemma CopyInfos(salt: Salt, s: State, t: State, ids: seq<int>)
    requires Inv(salt, s) && IsCopy(s, t, ids)
    ensures InfosOk(salt, t, {})
  {
    hide Inv, Info.TriedSlot, IsCopy;
    forall k | k in t.info
      ensures InfoOk(t, k, {})
      ensures t.info[k].inTried ==> t.info[k].TriedSlot(salt) in t.tried && t.tried[t.info[k].TriedSlot(salt)] == k
      ensures t.info[k].refCount == |SlotsOf(t.unk, k)|
    {
      CopyInfo(salt, s, t, ids, k);
      CopySlots(salt, s, t, ids, k);
    }
  }

  lemma RefsAreSlots(salt: Salt, s: State, n: int)
    requires Inv(salt, s) && n in s.info
    ensures s.info[n].refCount == |SlotsOf(s.unk, n)|
  {
  }

  lemma CopyTables(salt: Salt, s: State, t: State, ids: seq<int>)
    requires Inv(salt, s) && IsCopy(s, t, ids)
    ensures TablesOk(salt, t)
  {
    hide Inv, Info.TriedSlot, Info.BucketPosition;
    forall slot | slot in t.tried ensures TriedSlotOk(salt, t, slot) {
      TriedSlotHolds(salt, s, slot);
      SamePeerSameSlot(salt, t.info[t.tried[slot]], s.info[s.tried[slot]]);
    }
    forall slot | slot in t.unk ensures NewSlotOk(salt, t, slot) {
      NewSlotHolds(salt, s, slot);
      SamePeerSamePosition(salt, t.info[t.unk[slot]], s.info[s.unk[slot]], slot.0);
    }
  }

  lemma NewSlotHolds(salt: Salt, s: State, slot: Slot)
    requires Inv(salt, s) && slot in s.unk
    ensures NewSlotOk(salt, s, slot)
  {
  }

  lemma CopyCounts(s: State, t: State, ids: seq<int>)
    requires IsCopy(s, t, ids)
    ensures CountsOk(t, {}, 0)
  {
    IntervalSize(0, s.nNew, NewIds(t.info, {}));
    IntervalSize(s.nNew, |ids|, TriedIds(t.info));
  }

  lemma CopyIndexes(salt: Salt, s: State, t: State, ids: seq<int>)
    requires Inv(salt, s) && IsCopy(s, t, ids)
    ensures IndexesOk(t)
  {
    hide Inv;
    forall a | a in t.addrs ensures t.addrs[a] in t.info && t.info[t.addrs[a]].addr == a {
      KnownIsIndexed(salt, s, a);
    }
  }

  lemma CopyIsConsistent(salt: Salt, s: State, t: State, ids: seq<int>)
    requires Inv(salt, s) && IsCopy(s, t, ids)
    ensures Inv(salt, t)
  {
    CopyInfos(salt, s, t, ids);
    CopyTables(salt, s, t, ids);
    CopyIndexes(salt, s, t, ids);
    CopyCounts(s, t, ids);
  }

  /** Saving a consistent manager and loading the file gives the manager back, consistent, with its
      entries renumbered and nothing lost to collisions or pruning. */
  method SaveAndLoad(keyed: Keyed, key: nat, s: State) returns (k: nat, t: State, ghost ids: seq<int>)
    requires Inv(keyed(key), s)
    ensures k == key && IsCopy(s, t, ids) && Inv(keyed(key), t) && t.lastGood == 1
    ensures forall n | n in s.info :: exists k | 0 <= k < |ids| :: ids[k] == n
    ensures forall k | 0 <= k < |ids| :: ids[k] in s.info && k in t.info && SameRecord(t.info[k], s.info[ids[k]])
  {
    hide Inv, IsCopy, IsFileOf;
    var f;
    f, ids := Serialize(keyed, key, s);
    var r, loaded := Unserialize(keyed, f, s, ids);
    k, t := r.key, r.state;
    CopyIsConsistent(keyed(key), s, t, ids);
    CopiedRecords(s, t, ids);
  }

  /** A hash under which the two ports of one address fall into different tried buckets. */
  function PortHash(kind: int, a: int, b: int, c: int): nat {
    if b < 0 then 0 else b
  }

  lemma TwoPorts(salt: Salt, i: Info, j: Info)
    requires salt.hash == PortHash && i.port == 0 && j.port == 1
    ensures i.TriedSlot(salt) != j.TriedSlot(salt)
  {
  }

  lemma TwiceMisfit(salt: Salt, f: Stream, l: State)
    requires salt.hash == PortHash && FromFile(salt, f, l) && f.nNew == 0 && f.nTried == 2
    requires f.triedRecords[0].port == 0 && f.triedRecords[1].port == 1 && f.triedRecords[0].addr == f.triedRecords[1].addr
    ensures !AllFit(l)
  {
    hide Info.TriedSlot, RawInfos, RawAddrs, RawTable;
    var i, j := Record(f.triedRecords[0]), Record(f.triedRecords[1]);
    TwoPorts(salt, i, j);
    var m, n := l.tried[i.TriedSlot(salt)], l.tried[j.TriedSlot(salt)];
    assert m != n && IsTriedRecord(f, l.info[m], 2) && IsTriedRecord(f, l.info[n], 2);
    assert Kept(l, m) && !FitsIn(l, m);
  }

  /** A file may list one address twice. It loads, and the manager is then inconsistent. */
  method AddressTwice() returns (f: Stream, r: Loaded, salt: Salt)
    ensures !Unreadable(f) && r.Loaded? && !Inv(salt, r.state)
  {
    hide Inv, AllFit, FromFile;
    salt := Salt(PortHash, (a: NetAddr) => 0);
    var record := Info(7, 0, 0, {}, 7, 0, 0, 100, 0, 0, false, 0);
    f := Stream(1, 32, 0, 0, 2, FORMAT_BIT, [], [record, record.(port := 1)], []);
    ghost var loaded;
    r, loaded := Unserialize((key: nat) => salt, f, EMPTY, []);
    TwiceMisfit(salt, f, loaded);
  }
}
