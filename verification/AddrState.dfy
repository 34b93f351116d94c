/** The tables of the address manager as one value, and the invariant that its debug routine
    `Check_` tests (src/addrman.cpp, src/addrman.h).

    Every small update the manager makes is a function here, with a lemma saying what it does to
    the invariant. In the middle of an operation an entry may be in limbo: it is in no table,
    its reference count is zero and it is neither new nor tried. The invariant therefore names
    the entries in limbo and by how much the counter of new entries runs ahead. */
module AddrState {
  import opened Common

  const TRIED_BUCKET_COUNT := 256
  const NEW_BUCKET_COUNT := 1024
  const BUCKET_SIZE := 64
  const TRIED_BUCKETS_PER_GROUP := 8
  const NEW_BUCKETS_PER_SOURCE_GROUP := 64
  const NEW_BUCKETS_PER_ADDRESS := 8

  /** A network address without its port. */
  type NetAddr = int

  /** A bucket and a position in it. */
  type Slot = (int, int)

  /** What buckets are chosen with: the grouping of addresses into ranges, and the hash keyed with
      the manager's secret. The first argument of `hash` says which hash is meant. */
  datatype Salt = Salt(hash: (int, int, int, int) -> nat, group: NetAddr -> int)

  datatype Info = Info(
    addr: NetAddr, port: int, time: int, services: set<nat>, source: NetAddr,
    lastTry: int, lastCountAttempt: int, lastSuccess: int, attempts: int,
    refCount: int, inTried: bool, randomPos: int)
  {
    function TriedBucket(salt: Salt): (b: int)
      ensures 0 <= b < TRIED_BUCKET_COUNT
    {
      var hash1 := salt.hash(0, addr, port, 0);
      var hash2 := salt.hash(1, salt.group(addr), hash1 % TRIED_BUCKETS_PER_GROUP, 0);
      hash2 % TRIED_BUCKET_COUNT
    }

    function NewBucket(salt: Salt, src: NetAddr): (b: int)
      ensures 0 <= b < NEW_BUCKET_COUNT
    {
      var hash1 := salt.hash(2, salt.group(addr), salt.group(src), 0);
      var hash2 := salt.hash(3, salt.group(src), hash1 % NEW_BUCKETS_PER_SOURCE_GROUP, 0);
      hash2 % NEW_BUCKET_COUNT
    }

    function BucketPosition(salt: Salt, isNew: bool, bucket: int): (p: int)
      ensures 0 <= p < BUCKET_SIZE
    {
      salt.hash(if isNew then 'N' as int else 'K' as int, bucket, addr, port) % BUCKET_SIZE
    }

    function TriedSlot(salt: Salt): Slot {
      (TriedBucket(salt), BucketPosition(salt, false, TriedBucket(salt)))
    }

    function NewSlot(salt: Salt, src: NetAddr): Slot {
      (NewBucket(salt, src), BucketPosition(salt, true, NewBucket(salt, src)))
    }

    /** Whether the entry is the same service, port included. */
    predicate SameService(a: NetAddr, p: int) {
      addr == a && port == p
    }

    predicate IsTerrible(now: int) {
      if lastTry != 0 && lastTry >= now - 60 then false
      else if time > now + 10 * 60 then true
      else if time == 0 || now - time > 30 * 24 * 60 * 60 then true
      else if lastSuccess == 0 && attempts >= 3 then true
      else now - lastSuccess > 7 * 24 * 60 * 60 && attempts >= 10
    }

    /** An entry is terrible unless it was tried in the last minute: if its time lies in the future or more than
        30 days back, after three attempts without any success, or after ten in a week without one. */
    lemma TerribleExactly(now: int)
      ensures IsTerrible(now) <==>
              && (lastTry == 0 || now - lastTry > 60)
              && (|| time == 0 || time > now + 600 || time < now - 2592000
                  || (lastSuccess == 0 && attempts >= 3) || (lastSuccess < now - 604800 && attempts >= 10))
    {
    }

    /** The entry with its place in the tables forgotten: what is known about the peer. */
    function Facts(): Info {
      this.(refCount := 0, inTried := false, randomPos := 0)
    }
  }

  /** However many peers of one address range there are, they reach at most `TRIED_BUCKETS_PER_GROUP`
      tried buckets; and however many peers the sources of one range report, these reach at most
      `NEW_BUCKETS_PER_SOURCE_GROUP` new buckets. */
  lemma GroupsAreConfined(salt: Salt, g: int, peers: set<Info>, reports: set<(Info, NetAddr)>)
    requires forall i | i in peers :: salt.group(i.addr) == g
    requires forall r | r in reports :: salt.group(r.1) == g
    ensures |set i | i in peers :: i.TriedBucket(salt)| <= TRIED_BUCKETS_PER_GROUP
    ensures |set r | r in reports :: r.0.NewBucket(salt, r.1)| <= NEW_BUCKETS_PER_SOURCE_GROUP
  {
    var tried := (k: nat) => salt.hash(1, g, k, 0) % TRIED_BUCKET_COUNT;
    forall i | i in peers ensures i.TriedBucket(salt) in set k: nat | k < TRIED_BUCKETS_PER_GROUP :: tried(k) {
      assert i.TriedBucket(salt) == tried(salt.hash(0, i.addr, i.port, 0) % TRIED_BUCKETS_PER_GROUP);
    }
    ImageSize(tried, TRIED_BUCKETS_PER_GROUP);
    SmallerSet(set i | i in peers :: i.TriedBucket(salt), set k: nat | k < TRIED_BUCKETS_PER_GROUP :: tried(k));
    var unk := (k: nat) => salt.hash(3, g, k, 0) % NEW_BUCKET_COUNT;
    forall r | r in reports ensures r.0.NewBucket(salt, r.1) in set k: nat | k < NEW_BUCKETS_PER_SOURCE_GROUP :: unk(k) {
      assert r.0.NewBucket(salt, r.1) == unk(salt.hash(2, salt.group(r.0.addr), g, 0) % NEW_BUCKETS_PER_SOURCE_GROUP);
    }
    ImageSize(unk, NEW_BUCKETS_PER_SOURCE_GROUP);
    SmallerSet(set r | r in reports :: r.0.NewBucket(salt, r.1), set k: nat | k < NEW_BUCKETS_PER_SOURCE_GROUP :: unk(k));
  }

  /** The address manager as a value. Free slots are absent from `tried` and from `unk`, the new table. */
  datatype State = State(
    idCount: int, info: map<int, Info>, addrs: map<NetAddr, int>, random: seq<int>,
    nTried: int, tried: map<Slot, int>, nNew: int, unk: map<Slot, int>, lastGood: int)

  // ---------------------------------------------------------------- the invariant

  ghost predicate InfoOk(s: State, n: int, limbo: set<int>)
    requires n in s.info
  {
    var i := s.info[n];
    && 0 <= n < s.idCount
    && 0 <= i.lastTry && 0 <= i.lastSuccess
    && i.addr in s.addrs && s.addrs[i.addr] == n
    && 0 <= i.randomPos < |s.random| && s.random[i.randomPos] == n
    && (if n in limbo then !i.inTried && i.refCount == 0
        else if i.inTried then i.lastSuccess != 0 && i.refCount == 0
        else 1 <= i.refCount <= NEW_BUCKETS_PER_ADDRESS)
  }

  ghost predicate TriedSlotOk(salt: Salt, s: State, slot: Slot)
    requires slot in s.tried
  {
    var n := s.tried[slot];
    n in s.info && s.info[n].inTried && s.info[n].TriedSlot(salt) == slot
  }

  ghost predicate NewSlotOk(salt: Salt, s: State, slot: Slot)
    requires slot in s.unk
  {
    var n := s.unk[slot];
    && n in s.info && !s.info[n].inTried
    && 0 <= slot.0 < NEW_BUCKET_COUNT
    && slot.1 == s.info[n].BucketPosition(salt, true, slot.0)
  }

  /** The slots of the new table that hold `n`. */
  ghost function SlotsOf(unk: map<Slot, int>, n: int): set<Slot> {
    set slot | slot in unk && unk[slot] == n
  }

  ghost function TriedIds(info: map<int, Info>): set<int> {
    set n | n in info && info[n].inTried
  }

  ghost function NewIds(info: map<int, Info>, limbo: set<int>): set<int> {
    set n | n in info && !info[n].inTried && n !in limbo
  }

  ghost predicate EntriesOk(s: State, limbo: set<int>) {
    forall n | n in s.info :: InfoOk(s, n, limbo)
  }

  ghost predicate TriedPlaced(salt: Salt, s: State) {
    forall n | n in s.info && s.info[n].inTried ::
      s.info[n].TriedSlot(salt) in s.tried && s.tried[s.info[n].TriedSlot(salt)] == n
  }

  ghost predicate RefsMatch(s: State) {
    forall n | n in s.info :: s.info[n].refCount == |SlotsOf(s.unk, n)|
  }

  ghost predicate InfosOk(salt: Salt, s: State, limbo: set<int>) {
    EntriesOk(s, limbo) && TriedPlaced(salt, s) && RefsMatch(s)
  }

  ghost predicate TablesOk(salt: Salt, s: State) {
    && (forall slot | slot in s.tried :: TriedSlotOk(salt, s, slot))
    && (forall slot | slot in s.unk :: NewSlotOk(salt, s, slot))
  }

  ghost predicate IndexesOk(s: State) {
    && (forall a | a in s.addrs :: s.addrs[a] in s.info && s.info[s.addrs[a]].addr == a)
    && (forall k | 0 <= k < |s.random| :: s.random[k] in s.info && s.info[s.random[k]].randomPos == k)
  }

  ghost predicate CountsOk(s: State, limbo: set<int>, credit: int) {
    && s.nTried == |TriedIds(s.info)|
    && s.nNew == |NewIds(s.info, limbo)| + credit
  }

  /** The invariant with the entries in `limbo` in no table, and `nNew` ahead by `credit`. */
  ghost predicate InvX(salt: Salt, s: State, limbo: set<int>, credit: int) {
    && 0 <= s.idCount
    && limbo <= s.info.Keys
    && InfosOk(salt, s, limbo)
    && TablesOk(salt, s)
    && IndexesOk(s)
    && CountsOk(s, limbo, credit)
  }

  /** The invariant between operations. */
  ghost predicate Inv(salt: Salt, s: State) {
    InvX(salt, s, {}, 0)
  }

  lemma RandomCardinality(salt: Salt, s: State, limbo: set<int>)
    requires InfosOk(salt, s, limbo) && IndexesOk(s)
    ensures |s.random| == |s.info.Keys|
  {
    var ids := set k | 0 <= k < |s.random| :: s.random[k];
    SeqSetCardinality(s.random, ids);
    forall n | n in s.info ensures n in ids {
      assert InfoOk(s, n, limbo);
      assert s.random[s.info[n].randomPos] == n;
    }
    assert ids == s.info.Keys;
  }

  /** The bijection between `random` and the entries makes the first equation of `Check_` hold. */
  lemma RandomHasAll(salt: Salt, s: State, limbo: set<int>, credit: int)
    requires InvX(salt, s, limbo, credit)
    ensures |s.random| == s.nTried + s.nNew - credit + |limbo|
  {
    RandomCardinality(salt, s, limbo);
    KeysSplit(salt, s, limbo);
    hide InfosOk, TablesOk, IndexesOk, TriedIds, NewIds;
    var t, u := TriedIds(s.info), NewIds(s.info, limbo);
    assert |t + u| == |t| + |u|;
    assert |t + u + limbo| == |t + u| + |limbo|;
  }

  lemma KeysSplit(salt: Salt, s: State, limbo: set<int>)
    requires InfosOk(salt, s, limbo) && limbo <= s.info.Keys
    ensures s.info.Keys == TriedIds(s.info) + NewIds(s.info, limbo) + limbo
    ensures TriedIds(s.info) !! NewIds(s.info, limbo) && (TriedIds(s.info) + NewIds(s.info, limbo)) !! limbo
  {
    forall n | n in limbo ensures n !in TriedIds(s.info) {
      assert InfoOk(s, n, limbo);
    }
  }

  lemma {:induction false} SeqSetCardinality(r: seq<int>, ids: set<int>)
    requires forall j, k | 0 <= j < k < |r| :: r[j] != r[k]
    requires ids == set k | 0 <= k < |r| :: r[k]
    ensures |ids| == |r|
    decreases |r|
  {
    if r != [] {
      var m := |r| - 1;
      var rest := set k | 0 <= k < m :: r[..m][k];
      SeqSetCardinality(r[..m], rest);
      assert ids == rest + {r[m]};
    }
  }

  // ---------------------------------------------------------------- parts of the invariant that survive

  ghost predicate SameService(s: State, t: State, n: int) {
    n in s.info ==>
      n in t.info && t.info[n].addr == s.info[n].addr && t.info[n].port == s.info[n].port && t.info[n].inTried == s.info[n].inTried
  }

  /** Emptying slots, and changes that leave services alone, keep the tables right. */
  lemma TablesKept(salt: Salt, s: State, t: State)
    requires TablesOk(salt, s)
    requires forall slot | slot in t.tried :: slot in s.tried && t.tried[slot] == s.tried[slot] && SameService(s, t, t.tried[slot])
    requires forall slot | slot in t.unk :: slot in s.unk && t.unk[slot] == s.unk[slot] && SameService(s, t, t.unk[slot])
    ensures TablesOk(salt, t)
  {
    forall slot | slot in t.tried ensures TriedSlotOk(salt, t, slot) {
      assert TriedSlotOk(salt, s, slot);
    }
    forall slot | slot in t.unk ensures NewSlotOk(salt, t, slot) {
      assert NewSlotOk(salt, s, slot);
    }
  }

  lemma TriedPlacedKept(salt: Salt, s: State, t: State)
    requires TriedPlaced(salt, s) && t.tried == s.tried
    requires forall n | n in t.info && t.info[n].inTried :: n in s.info && SameService(s, t, n)
    ensures TriedPlaced(salt, t)
  {
    hide Info.TriedSlot;
    forall n | n in t.info && t.info[n].inTried
      ensures t.info[n].TriedSlot(salt) in t.tried && t.tried[t.info[n].TriedSlot(salt)] == n
    {
      SamePeerSameSlot(salt, t.info[n], s.info[n]);
    }
  }

  lemma SamePeerSameSlot(salt: Salt, i: Info, j: Info)
    requires i.addr == j.addr && i.port == j.port
    ensures i.TriedSlot(salt) == j.TriedSlot(salt)
  {
  }

  lemma SamePeerSameNewSlot(salt: Salt, i: Info, j: Info, source: NetAddr)
    requires i.addr == j.addr && i.port == j.port
    ensures i.NewSlot(salt, source) == j.NewSlot(salt, source)
  {
  }

  predicate IsTried(info: map<int, Info>, n: int) {
    n in info && info[n].inTried
  }

  predicate IsNew(info: map<int, Info>, limbo: set<int>, n: int) {
    n in info && !info[n].inTried && n !in limbo
  }

  function One(b: bool): int {
    if b then 1 else 0
  }

  /** Counting again after one entry changed its role. */
  lemma Recount(info: map<int, Info>, limbo: set<int>, info': map<int, Info>, limbo': set<int>, n: int)
    requires forall m | m != n :: IsTried(info, m) == IsTried(info', m)
    requires forall m | m != n :: IsNew(info, limbo, m) == IsNew(info', limbo', m)
    ensures |TriedIds(info')| == |TriedIds(info)| - One(IsTried(info, n)) + One(IsTried(info', n))
    ensures |NewIds(info', limbo')| == |NewIds(info, limbo)| - One(IsNew(info, limbo, n)) + One(IsNew(info', limbo', n))
  {
    RecountTried(info, info', n);
    RecountNew(info, limbo, info', limbo', n);
  }

  lemma RecountTried(info: map<int, Info>, info': map<int, Info>, n: int)
    requires forall m | m != n :: IsTried(info, m) == IsTried(info', m)
    ensures |TriedIds(info')| == |TriedIds(info)| - One(IsTried(info, n)) + One(IsTried(info', n))
  {
    forall m | m != n ensures m in TriedIds(info') <==> m in TriedIds(info) {
      assert IsTried(info, m) == IsTried(info', m);
    }
    WithOrWithout(TriedIds(info), TriedIds(info'), n);
  }

  lemma RecountNew(info: map<int, Info>, limbo: set<int>, info': map<int, Info>, limbo': set<int>, n: int)
    requires forall m | m != n :: IsNew(info, limbo, m) == IsNew(info', limbo', m)
    ensures |NewIds(info', limbo')| == |NewIds(info, limbo)| - One(IsNew(info, limbo, n)) + One(IsNew(info', limbo', n))
  {
    forall m | m != n ensures m in NewIds(info', limbo') <==> m in NewIds(info, limbo) {
      assert IsNew(info, limbo, m) == IsNew(info', limbo', m);
    }
    WithOrWithout(NewIds(info, limbo), NewIds(info', limbo'), n);
  }

  // ---------------------------------------------------------------- small updates

  /** `Create`: a new entry at the end of `random`, in limbo until it gets a slot. */
  function Create(s: State, i: Info): State {
    var n := s.idCount;
    s.(idCount := n + 1,
       info := s.info[n := i.(lastTry := 0, lastCountAttempt := 0, lastSuccess := 0, attempts := 0,
                              refCount := 0, inTried := false, randomPos := |s.random|)],
       addrs := s.addrs[i.addr := n],
       random := s.random + [n])
  }

  lemma CreateKeeps(salt: Salt, s: State, i: Info, limbo: set<int>, credit: int)
    requires InvX(salt, s, limbo, credit) && i.addr !in s.addrs
    ensures InvX(salt, Create(s, i), limbo + {s.idCount}, credit)
    ensures s.idCount !in s.info
  {
    CreateInfos(salt, s, i, limbo);
    CreateTables(salt, s, i);
    var n, t := s.idCount, Create(s, i);
    hide InfosOk, TablesOk;
    Recount(s.info, limbo, t.info, limbo + {n}, n);
  }

  lemma CreateTables(salt: Salt, s: State, i: Info)
    requires TablesOk(salt, s) && s.idCount !in s.info
    ensures TablesOk(salt, Create(s, i))
  {
    TablesKept(salt, s, Create(s, i));
  }

  lemma CreateInfos(salt: Salt, s: State, i: Info, limbo: set<int>)
    requires InfosOk(salt, s, limbo) && TablesOk(salt, s) && i.addr !in s.addrs && 0 <= s.idCount
    ensures InfosOk(salt, Create(s, i), limbo + {s.idCount})
    ensures s.idCount !in s.info
  {
    var n, t := s.idCount, Create(s, i);
    assert n !in s.info by {
      assert n in s.info ==> InfoOk(s, n, limbo);
    }
    assert SlotsOf(s.unk, n) == {} by {
      forall slot | slot in s.unk ensures s.unk[slot] != n {
        assert NewSlotOk(salt, s, slot);
      }
    }
    hide Info.TriedSlot, Info.BucketPosition;
    forall m | m in t.info ensures InfoOk(t, m, limbo + {n}) {
      if m != n {
        assert InfoOk(s, m, limbo);
      }
    }
    TriedPlacedKept(salt, s, t);
  }

  /** `SwapRandom`. */
  function Swap(s: State, j: int, k: int): State
    requires 0 <= j < |s.random| && 0 <= k < |s.random|
    requires s.random[j] in s.info && s.random[k] in s.info
  {
    if j == k then s else
    var n, m := s.random[j], s.random[k];
    s.(info := s.info[n := s.info[n].(randomPos := k)][m := s.info[m].(randomPos := j)],
       random := s.random[j := m][k := n])
  }

  lemma SwapInfos(salt: Salt, s: State, j: int, k: int, limbo: set<int>)
    requires InfosOk(salt, s, limbo) && IndexesOk(s)
    requires 0 <= j < |s.random| && 0 <= k < |s.random|
    ensures InfosOk(salt, Swap(s, j, k), limbo) && IndexesOk(Swap(s, j, k))
  {
    hide Info.TriedSlot;
    var t := Swap(s, j, k);
    SwapFacts(s, j, k);
    TriedPlacedKept(salt, s, t);
    hide TriedPlaced;
    forall m | m in t.info ensures InfoOk(t, m, limbo) {
      assert InfoOk(s, m, limbo);
    }
  }

  /** Swapping moves positions in `random` and nothing else. */
  lemma SwapFacts(s: State, j: int, k: int)
    requires 0 <= j < |s.random| && 0 <= k < |s.random|
    requires s.random[j] in s.info && s.random[k] in s.info
    ensures Swap(s, j, k).info.Keys == s.info.Keys
    ensures forall n | n in s.info :: Swap(s, j, k).info[n] == s.info[n].(randomPos := Swap(s, j, k).info[n].randomPos)
  {
  }

  lemma SwapKeeps(salt: Salt, s: State, j: int, k: int, limbo: set<int>, credit: int)
    requires InvX(salt, s, limbo, credit)
    requires 0 <= j < |s.random| && 0 <= k < |s.random|
    ensures InvX(salt, Swap(s, j, k), limbo, credit)
  {
    var t := Swap(s, j, k);
    SwapFacts(s, j, k);
    SwapInfos(salt, s, j, k, limbo);
    TablesKept(salt, s, t);
    Recount(s.info, limbo, t.info, limbo, 0);
  }

  predicate CanDelete(s: State, n: int) {
    && n in s.info && 0 <= s.info[n].randomPos < |s.random|
    && s.random[s.info[n].randomPos] in s.info && s.random[|s.random| - 1] in s.info
  }

  /** `Delete`: move the entry to the end of `random`, then forget it. */
  function Delete(s: State, n: int): State {
    if CanDelete(s, n) then
      var t := Swap(s, s.info[n].randomPos, |s.random| - 1);
      t.(random := t.random[..|t.random| - 1], addrs := t.addrs - {s.info[n].addr}, info := t.info - {n}, nNew := t.nNew - 1)
    else s
  }

  /** What is left after the last entry of `random`, which is in limbo, is forgotten. */
  function Forget(s: State, n: int): State
    requires n in s.info && s.random != []
  {
    s.(random := s.random[..|s.random| - 1], addrs := s.addrs - {s.info[n].addr}, info := s.info - {n}, nNew := s.nNew - 1)
  }

  lemma ForgetInfos(salt: Salt, s: State, n: int, limbo: set<int>)
    requires InfosOk(salt, s, limbo) && IndexesOk(s) && n in s.info && s.random != [] && s.random[|s.random| - 1] == n
    ensures InfosOk(salt, Forget(s, n), limbo - {n}) && IndexesOk(Forget(s, n))
  {
    var t := Forget(s, n);
    forall m | m in t.info ensures InfoOk(t, m, limbo - {n}) {
      assert InfoOk(s, m, limbo);
      assert s.info[m].randomPos != |s.random| - 1;
    }
  }

  lemma ForgetTables(salt: Salt, s: State, n: int, limbo: set<int>)
    requires InfosOk(salt, s, limbo) && TablesOk(salt, s) && limbo <= s.info.Keys && n in limbo && s.random != []
    ensures TablesOk(salt, Forget(s, n))
  {
    assert InfoOk(s, n, limbo);
    assert SlotsOf(s.unk, n) == {};
    forall slot | slot in s.tried ensures s.tried[slot] != n {
      assert TriedSlotOk(salt, s, slot);
    }
    forall slot | slot in s.unk ensures s.unk[slot] != n {
      assert slot in SlotsOf(s.unk, s.unk[slot]);
    }
    TablesKept(salt, s, Forget(s, n));
  }

  lemma DeleteKeeps(salt: Salt, s: State, n: int, limbo: set<int>, credit: int)
    requires InvX(salt, s, limbo, credit) && n in limbo
    ensures CanDelete(s, n)
    ensures InvX(salt, Delete(s, n), limbo - {n}, credit - 1)
  {
    hide InvX;
    LimboBasics(salt, s, n, limbo, credit);
    DeleteIsForget(s, n);
    var r := Swap(s, s.info[n].randomPos, |s.random| - 1);
    SwapKeeps(salt, s, s.info[n].randomPos, |s.random| - 1, limbo, credit);
    ForgetKeeps(salt, r, n, limbo, credit);
  }

  lemma LimboBasics(salt: Salt, s: State, n: int, limbo: set<int>, credit: int)
    requires InvX(salt, s, limbo, credit) && n in limbo
    ensures CanDelete(s, n) && s.random[s.info[n].randomPos] == n && !s.info[n].inTried
  {
    hide TablesOk, TriedPlaced, RefsMatch;
    assert InfoOk(s, n, limbo);
  }

  lemma DeleteIsForget(s: State, n: int)
    requires CanDelete(s, n) && s.random[s.info[n].randomPos] == n
    ensures var r := Swap(s, s.info[n].randomPos, |s.random| - 1);
            && |r.random| == |s.random| && r.random[|r.random| - 1] == n && n in r.info
            && Delete(s, n) == Forget(r, n)
  {
    SwapFacts(s, s.info[n].randomPos, |s.random| - 1);
  }

  lemma ForgetKeeps(salt: Salt, s: State, n: int, limbo: set<int>, credit: int)
    requires InvX(salt, s, limbo, credit) && n in limbo && s.random != [] && s.random[|s.random| - 1] == n
    ensures InvX(salt, Forget(s, n), limbo - {n}, credit - 1)
  {
    LimboBasics(salt, s, n, limbo, credit);
    ForgetInfos(salt, s, n, limbo);
    ForgetTables(salt, s, n, limbo);
    hide InfosOk, TablesOk, IndexesOk;
    Recount(s.info, limbo, Forget(s, n).info, limbo - {n}, n);
  }

  /** Empty a slot of the new table and take one reference from its entry. */
  function DropSlot(s: State, slot: Slot): State
    requires slot in s.unk && s.unk[slot] in s.info
  {
    var n := s.unk[slot];
    s.(info := s.info[n := s.info[n].(refCount := s.info[n].refCount - 1)], unk := s.unk - {slot})
  }

  lemma DropSlotInfos(salt: Salt, s: State, slot: Slot, limbo: set<int>)
    requires InfosOk(salt, s, limbo) && slot in s.unk && s.unk[slot] in s.info && !s.info[s.unk[slot]].inTried
    ensures s.unk[slot] !in limbo && s.info[s.unk[slot]].refCount > 0
    ensures InfosOk(salt, DropSlot(s, slot), if s.info[s.unk[slot]].refCount > 1 then limbo else limbo + {s.unk[slot]})
  {
    var n, t := s.unk[slot], DropSlot(s, slot);
    assert slot in SlotsOf(s.unk, n);
    assert InfoOk(s, n, limbo);
    var limbo' := if s.info[n].refCount > 1 then limbo else limbo + {n};
    forall m | m in t.info ensures InfoOk(t, m, limbo') && t.info[m].refCount == |SlotsOf(t.unk, m)| {
      assert InfoOk(s, m, limbo);
      assert SlotsOf(t.unk, m) == if m == n then SlotsOf(s.unk, m) - {slot} else SlotsOf(s.unk, m);
    }
  }

  lemma DropSlotTables(salt: Salt, s: State, slot: Slot)
    requires TablesOk(salt, s) && slot in s.unk && s.unk[slot] in s.info
    ensures TablesOk(salt, DropSlot(s, slot))
  {
    TablesKept(salt, s, DropSlot(s, slot));
  }

  lemma DropSlotIndexes(s: State, slot: Slot)
    requires IndexesOk(s) && slot in s.unk && s.unk[slot] in s.info
    ensures IndexesOk(DropSlot(s, slot))
  {
  }

  lemma DropSlotKnown(salt: Salt, s: State, slot: Slot)
    requires TablesOk(salt, s) && slot in s.unk
    ensures s.unk[slot] in s.info && !s.info[s.unk[slot]].inTried
  {
    assert NewSlotOk(salt, s, slot);
  }

  /** The entry of a dropped slot goes to limbo with its last reference. */
  lemma DropSlotKeeps(salt: Salt, s: State, slot: Slot, limbo: set<int>, credit: int)
    requires InvX(salt, s, limbo, credit) && slot in s.unk
    ensures s.unk[slot] in s.info && s.unk[slot] !in limbo && s.info[s.unk[slot]].refCount > 0
    ensures if s.info[s.unk[slot]].refCount > 1 then InvX(salt, DropSlot(s, slot), limbo, credit)
            else InvX(salt, DropSlot(s, slot), limbo + {s.unk[slot]}, credit + 1)
  {
    hide InfosOk, TablesOk, IndexesOk, CountsOk;
    DropSlotKnown(salt, s, slot);
    DropSlotInfos(salt, s, slot, limbo);
    DropSlotTables(salt, s, slot);
    DropSlotIndexes(s, slot);
    DropSlotCounts(s, slot, limbo, credit);
  }

  lemma DropSlotCounts(s: State, slot: Slot, limbo: set<int>, credit: int)
    requires CountsOk(s, limbo, credit) && slot in s.unk && s.unk[slot] in s.info
    requires !s.info[s.unk[slot]].inTried && s.unk[slot] !in limbo
    ensures CountsOk(DropSlot(s, slot), limbo, credit)
    ensures CountsOk(DropSlot(s, slot), limbo + {s.unk[slot]}, credit + 1)
  {
    var n, t := s.unk[slot], DropSlot(s, slot);
    Recount(s.info, limbo, t.info, limbo, n);
    Recount(s.info, limbo, t.info, limbo + {n}, n);
  }

  /** Fill a slot of the new table and give one reference to its entry. */
  function PutNew(s: State, n: int, slot: Slot): State
    requires n in s.info
  {
    s.(info := s.info[n := s.info[n].(refCount := s.info[n].refCount + 1)], unk := s.unk[slot := n])
  }

  lemma PutNewInfos(salt: Salt, s: State, n: int, slot: Slot, limbo: set<int>)
    requires InfosOk(salt, s, limbo) && n in s.info && !s.info[n].inTried
    requires s.info[n].refCount < NEW_BUCKETS_PER_ADDRESS && slot !in s.unk
    ensures InfosOk(salt, PutNew(s, n, slot), limbo - {n})
  {
    var t := PutNew(s, n, slot);
    forall m | m in t.info ensures InfoOk(t, m, limbo - {n}) && t.info[m].refCount == |SlotsOf(t.unk, m)| {
      assert InfoOk(s, m, limbo);
      assert SlotsOf(t.unk, m) == if m == n then SlotsOf(s.unk, m) + {slot} else SlotsOf(s.unk, m);
    }
  }

  lemma PutNewTables(salt: Salt, s: State, n: int, slot: Slot)
    requires TablesOk(salt, s) && n in s.info && !s.info[n].inTried
    requires 0 <= slot.0 < NEW_BUCKET_COUNT && slot.1 == s.info[n].BucketPosition(salt, true, slot.0)
    ensures TablesOk(salt, PutNew(s, n, slot))
  {
    var t := PutNew(s, n, slot);
    forall sl | sl in t.tried ensures TriedSlotOk(salt, t, sl) {
      assert TriedSlotOk(salt, s, sl);
    }
    forall sl | sl in t.unk ensures NewSlotOk(salt, t, sl) {
      assert sl != slot ==> NewSlotOk(salt, s, sl);
    }
  }

  lemma PutNewKeeps(salt: Salt, s: State, n: int, slot: Slot, limbo: set<int>, credit: int)
    requires InvX(salt, s, limbo, credit)
    requires n in s.info && !s.info[n].inTried && s.info[n].refCount < NEW_BUCKETS_PER_ADDRESS
    requires slot !in s.unk && 0 <= slot.0 < NEW_BUCKET_COUNT && slot.1 == s.info[n].BucketPosition(salt, true, slot.0)
    ensures if n in limbo then InvX(salt, PutNew(s, n, slot), limbo - {n}, credit - 1)
            else InvX(salt, PutNew(s, n, slot), limbo, credit)
  {
    hide InfosOk, TablesOk;
    var t := PutNew(s, n, slot);
    PutNewInfos(salt, s, n, slot, limbo);
    PutNewTables(salt, s, n, slot);
    Recount(s.info, limbo, t.info, limbo - {n}, n);
    assert n !in limbo ==> limbo - {n} == limbo;
  }

  /** Take the entry of a tried slot out of the tried table. */
  function Untry(s: State, slot: Slot): State
    requires slot in s.tried && s.tried[slot] in s.info
  {
    var n := s.tried[slot];
    s.(info := s.info[n := s.info[n].(inTried := false)], tried := s.tried - {slot}, nTried := s.nTried - 1)
  }

  lemma UntryInfos(salt: Salt, s: State, slot: Slot, limbo: set<int>)
    requires InfosOk(salt, s, limbo) && slot in s.tried && TriedSlotOk(salt, s, slot)
    ensures s.tried[slot] !in limbo
    ensures InfosOk(salt, Untry(s, slot), limbo + {s.tried[slot]})
  {
    var n, t := s.tried[slot], Untry(s, slot);
    forall m | m in t.info ensures InfoOk(t, m, limbo + {n}) {
      assert InfoOk(s, m, limbo);
    }
    assert InfoOk(s, n, limbo);
  }

  lemma UntryTables(salt: Salt, s: State, slot: Slot)
    requires TablesOk(salt, s) && slot in s.tried && TriedSlotOk(salt, s, slot)
    ensures TablesOk(salt, Untry(s, slot))
  {
    var t := Untry(s, slot);
    forall sl | sl in t.tried ensures TriedSlotOk(salt, t, sl) {
      assert TriedSlotOk(salt, s, sl);
    }
    forall sl | sl in t.unk ensures NewSlotOk(salt, t, sl) {
      assert NewSlotOk(salt, s, sl);
    }
  }

  lemma UntryKeeps(salt: Salt, s: State, slot: Slot, limbo: set<int>, credit: int)
    requires InvX(salt, s, limbo, credit) && slot in s.tried
    ensures s.tried[slot] in s.info && s.tried[slot] !in limbo
    ensures InvX(salt, Untry(s, slot), limbo + {s.tried[slot]}, credit)
  {
    assert TriedSlotOk(salt, s, slot);
    var n, t := s.tried[slot], Untry(s, slot);
    UntryInfos(salt, s, slot, limbo);
    UntryTables(salt, s, slot);
    Recount(s.info, limbo, t.info, limbo + {n}, n);
  }

  /** Put an entry into its slot of the tried table. */
  function PutTried(s: State, n: int, slot: Slot): State
    requires n in s.info
  {
    s.(info := s.info[n := s.info[n].(inTried := true)], tried := s.tried[slot := n], nTried := s.nTried + 1)
  }

  lemma PutTriedInfos(salt: Salt, s: State, n: int, limbo: set<int>)
    requires InfosOk(salt, s, limbo) && limbo <= s.info.Keys && n in limbo
    requires s.info[n].lastSuccess != 0 && s.info[n].TriedSlot(salt) !in s.tried
    ensures InfosOk(salt, PutTried(s, n, s.info[n].TriedSlot(salt)), limbo - {n})
  {
    var t := PutTried(s, n, s.info[n].TriedSlot(salt));
    forall m | m in t.info ensures InfoOk(t, m, limbo - {n}) {
      assert InfoOk(s, m, limbo);
    }
  }

  lemma PutTriedTables(salt: Salt, s: State, n: int)
    requires TablesOk(salt, s) && n in s.info && SlotsOf(s.unk, n) == {} && s.info[n].TriedSlot(salt) !in s.tried
    ensures TablesOk(salt, PutTried(s, n, s.info[n].TriedSlot(salt)))
  {
    var slot := s.info[n].TriedSlot(salt);
    var t := PutTried(s, n, slot);
    forall sl | sl in t.tried ensures TriedSlotOk(salt, t, sl) {
      assert sl != slot ==> TriedSlotOk(salt, s, sl);
    }
    forall sl | sl in t.unk ensures NewSlotOk(salt, t, sl) {
      assert NewSlotOk(salt, s, sl);
      assert sl in SlotsOf(s.unk, s.unk[sl]);
    }
  }

  lemma PutTriedKeeps(salt: Salt, s: State, n: int, limbo: set<int>, credit: int)
    requires InvX(salt, s, limbo, credit) && n in limbo
    requires s.info[n].lastSuccess != 0 && s.info[n].TriedSlot(salt) !in s.tried
    ensures InvX(salt, PutTried(s, n, s.info[n].TriedSlot(salt)), limbo - {n}, credit)
  {
    var slot := s.info[n].TriedSlot(salt);
    var t := PutTried(s, n, slot);
    assert InfoOk(s, n, limbo);
    assert SlotsOf(s.unk, n) == {};
    PutTriedInfos(salt, s, n, limbo);
    PutTriedTables(salt, s, n);
    Recount(s.info, limbo, t.info, limbo - {n}, n);
  }

  /** Change what is known about a peer, but not where it is stored. */
  function Note(s: State, n: int, i: Info): State {
    s.(info := s.info[n := i])
  }

  predicate SamePlace(i: Info, j: Info) {
    i.addr == j.addr && i.port == j.port && i.refCount == j.refCount && i.inTried == j.inTried && i.randomPos == j.randomPos
  }

  lemma NoteKeeps(salt: Salt, s: State, n: int, i: Info, limbo: set<int>, credit: int)
    requires InvX(salt, s, limbo, credit) && n in s.info && SamePlace(s.info[n], i)
    requires i.lastTry >= 0 && i.lastSuccess >= 0 && (i.inTried ==> i.lastSuccess != 0)
    ensures InvX(salt, Note(s, n, i), limbo, credit)
  {
    hide InfosOk, TablesOk;
    var t := Note(s, n, i);
    NoteInfos(salt, s, n, i, limbo);
    NoteTables(salt, s, n, i);
    Recount(s.info, limbo, t.info, limbo, n);
  }

  lemma NoteTables(salt: Salt, s: State, n: int, i: Info)
    requires TablesOk(salt, s) && n in s.info && SamePlace(s.info[n], i)
    ensures TablesOk(salt, Note(s, n, i))
  {
    TablesKept(salt, s, Note(s, n, i));
  }

  lemma NoteInfos(salt: Salt, s: State, n: int, i: Info, limbo: set<int>)
    requires InfosOk(salt, s, limbo) && n in s.info && SamePlace(s.info[n], i)
    requires i.lastTry >= 0 && i.lastSuccess >= 0 && (i.inTried ==> i.lastSuccess != 0)
    ensures InfosOk(salt, Note(s, n, i), limbo)
  {
    hide Info.TriedSlot;
    var t := Note(s, n, i);
    TriedPlacedKept(salt, s, t);
    hide TriedPlaced;
    forall m | m in t.info ensures InfoOk(t, m, limbo) {
      assert InfoOk(s, m, limbo);
    }
  }

  // ---------------------------------------------------------------- operations

  /** Two entries that differ at most in their position in `random`. */
  predicate SameButPos(i: Info, j: Info) {
    i.(randomPos := 0) == j.(randomPos := 0)
  }

  lemma DeleteFacts(s: State, n: int)
    requires CanDelete(s, n)
    ensures Delete(s, n).info.Keys == s.info.Keys - {n}
    ensures Delete(s, n).addrs == s.addrs - {s.info[n].addr}
    ensures var t := Delete(s, n); t == s.(info := t.info, addrs := t.addrs, random := t.random, nNew := s.nNew - 1)
    ensures forall m | m in s.info && m != n :: SameButPos(Delete(s, n).info[m], s.info[m])
  {
    SwapFacts(s, s.info[n].randomPos, |s.random| - 1);
    hide Swap;
  }

  /** `ClearNew`: empty a slot of the new table, and delete its entry with the last reference. */
  function ClearNew(s: State, slot: Slot): State {
    if slot in s.unk && s.unk[slot] in s.info then
      var n, t := s.unk[slot], DropSlot(s, slot);
      if t.info[n].refCount == 0 then Delete(t, n) else t
    else s
  }

  /** `ClearNew` needs no bookkeeping by its callers. */
  lemma ClearNewKeeps(salt: Salt, s: State, slot: Slot, limbo: set<int>, credit: int)
    requires InvX(salt, s, limbo, credit)
    ensures InvX(salt, ClearNew(s, slot), limbo, credit)
    ensures slot in s.unk ==> s.unk[slot] in s.info && s.unk[slot] !in limbo && 0 < s.info[s.unk[slot]].refCount
    ensures slot in s.unk && s.info[s.unk[slot]].refCount == 1 ==> CanDelete(DropSlot(s, slot), s.unk[slot])
  {
    hide InvX;
    if slot in s.unk {
      DropSlotKeeps(salt, s, slot, limbo, credit);
      var n, t := s.unk[slot], DropSlot(s, slot);
      if t.info[n].refCount == 0 {
        DeleteKeeps(salt, t, n, limbo + {n}, credit + 1);
        assert limbo + {n} - {n} == limbo;
      }
    }
  }

  /** The entry that loses its last reference, if there is one. */
  function Victim(s: State, slot: Slot): set<int> {
    if slot in s.unk && s.unk[slot] in s.info && s.info[s.unk[slot]].refCount == 1 then {s.unk[slot]} else {}
  }

  /** `ClearNew` costs at most one entry, the one in the slot, and changes no other. */
  lemma ClearNewFacts(s: State, slot: Slot)
    requires slot in s.unk ==> s.unk[slot] in s.info
    requires slot in s.unk && s.info[s.unk[slot]].refCount == 1 ==> CanDelete(DropSlot(s, slot), s.unk[slot])
    ensures ClearNew(s, slot).unk == s.unk - {slot} && ClearNew(s, slot).tried == s.tried
    ensures ClearNew(s, slot).lastGood == s.lastGood && ClearNew(s, slot).idCount == s.idCount
    ensures ClearNew(s, slot).info.Keys == s.info.Keys - Victim(s, slot)
    ensures ClearNew(s, slot).addrs == s.addrs - (set n | n in Victim(s, slot) :: s.info[n].addr)
    ensures forall m | m in s.info && !(slot in s.unk && m == s.unk[slot]) :: SameButPos(ClearNew(s, slot).info[m], s.info[m])
    ensures forall m | m in ClearNew(s, slot).info ::
              ClearNew(s, slot).info[m].Facts() == s.info[m].Facts() && ClearNew(s, slot).info[m].inTried == s.info[m].inTried
    ensures slot in s.unk && s.unk[slot] in ClearNew(s, slot).info ==>
              ClearNew(s, slot).info[s.unk[slot]].refCount == s.info[s.unk[slot]].refCount - 1
  {
    if slot in s.unk && s.info[s.unk[slot]].refCount == 1 {
      DeleteFacts(DropSlot(s, slot), s.unk[slot]);
    }
  }

  /** The loop of `MakeTried` over the first `k` new buckets: drop every reference to `n`. */
  function DropBuckets(salt: Salt, s: State, n: int, k: nat): State
    decreases k
  {
    if k == 0 || n !in s.info then s else
    var t := DropBuckets(salt, s, n, k - 1);
    var slot := (k - 1, s.info[n].BucketPosition(salt, true, k - 1));
    if slot in t.unk && t.unk[slot] == n && n in t.info then DropSlot(t, slot) else t
  }

  /** The invariant while `MakeTried` drops references of `n`: in limbo once none is left. */
  ghost predicate Dropping(salt: Salt, s: State, n: int) {
    n in s.info && if s.info[n].refCount == 0 then InvX(salt, s, {n}, 1) else Inv(salt, s)
  }

  lemma DroppingStep(salt: Salt, s: State, n: int, slot: Slot)
    requires Dropping(salt, s, n) && slot in s.unk && s.unk[slot] == n
    ensures Dropping(salt, DropSlot(s, slot), n)
  {
    if s.info[n].refCount == 0 {
      DropSlotKeeps(salt, s, slot, {n}, 1);
    } else {
      DropSlotKeeps(salt, s, slot, {}, 0);
      assert {} + {n} == {n};
    }
  }

  lemma {:induction false} DropBucketsFacts(salt: Salt, s: State, n: int, k: nat)
    requires n in s.info
    ensures n in DropBuckets(salt, s, n, k).info
    ensures DropBuckets(salt, s, n, k) ==
            s.(info := s.info[n := s.info[n].(refCount := DropBuckets(salt, s, n, k).info[n].refCount)],
               unk := DropBuckets(salt, s, n, k).unk)
    decreases k
  {
    if k > 0 {
      DropBucketsFacts(salt, s, n, k - 1);
    }
  }

  lemma {:induction false} DropBucketsKeeps(salt: Salt, s: State, n: int, k: nat)
    requires Dropping(salt, s, n)
    ensures Dropping(salt, DropBuckets(salt, s, n, k), n)
    decreases k
  {
    if k > 0 {
      DropBucketsKeeps(salt, s, n, k - 1);
      var t := DropBuckets(salt, s, n, k - 1);
      var slot := (k - 1, s.info[n].BucketPosition(salt, true, k - 1));
      if slot in t.unk && t.unk[slot] == n {
        DroppingStep(salt, t, n, slot);
      }
    }
  }

  lemma {:induction false} DropBucketsGone(salt: Salt, s: State, n: int, k: nat, sl: Slot)
    requires n in s.info
    requires sl in s.unk && s.unk[sl] == n ==> 0 <= sl.0 && sl.1 == s.info[n].BucketPosition(salt, true, sl.0)
    ensures sl in DropBuckets(salt, s, n, k).unk && DropBuckets(salt, s, n, k).unk[sl] == n ==>
              sl in s.unk && s.unk[sl] == n && sl.0 >= k
    decreases k
  {
    if k > 0 {
      DropBucketsGone(salt, s, n, k - 1, sl);
      DropBucketsFacts(salt, s, n, k - 1);
    }
  }

  /** Dropping the references in all buckets puts the entry in limbo: `MakeTried`'s assertion
      that no reference is left holds. */
  lemma DropAllLeavesNone(salt: Salt, s: State, n: int)
    requires TablesOk(salt, s) && n in s.info
    ensures SlotsOf(DropBuckets(salt, s, n, NEW_BUCKET_COUNT).unk, n) == {}
  {
    var t := DropBuckets(salt, s, n, NEW_BUCKET_COUNT);
    forall slot | slot in t.unk ensures t.unk[slot] != n {
      if slot in s.unk {
        assert NewSlotOk(salt, s, slot);
      }
      DropBucketsGone(salt, s, n, NEW_BUCKET_COUNT, slot);
    }
  }

  lemma DroppingStarts(salt: Salt, s: State, n: int)
    requires Inv(salt, s) && n in s.info && !s.info[n].inTried
    ensures Dropping(salt, s, n) && TablesOk(salt, s)
  {
    assert InfoOk(s, n, {});
  }

  lemma DroppingEnds(salt: Salt, s: State, n: int)
    requires Dropping(salt, s, n) && SlotsOf(s.unk, n) == {}
    ensures s.info[n].refCount == 0 && InvX(salt, s, {n}, 1)
  {
  }

  lemma DropAllKeeps(salt: Salt, s: State, n: int)
    requires Inv(salt, s) && n in s.info && !s.info[n].inTried
    ensures var t := DropBuckets(salt, s, n, NEW_BUCKET_COUNT);
            && n in t.info && t.info[n].refCount == 0
            && t == s.(info := s.info[n := s.info[n].(refCount := 0)], unk := t.unk)
            && InvX(salt, t.(nNew := t.nNew - 1), {n}, 0)
  {
    hide InvX, Inv, Dropping, TablesOk, DropBuckets;
    DroppingStarts(salt, s, n);
    DropBucketsFacts(salt, s, n, NEW_BUCKET_COUNT);
    DropBucketsKeeps(salt, s, n, NEW_BUCKET_COUNT);
    DropAllLeavesNone(salt, s, n);
    var t := DropBuckets(salt, s, n, NEW_BUCKET_COUNT);
    DroppingEnds(salt, t, n);
    CreditMoves(salt, t, {n}, 1, -1);
  }

  lemma CreditMoves(salt: Salt, s: State, limbo: set<int>, credit: int, d: int)
    requires InvX(salt, s, limbo, credit)
    ensures InvX(salt, s.(nNew := s.nNew + d), limbo, credit + d)
  {
    var t := s.(nNew := s.nNew + d);
    forall n | n in t.info ensures InfoOk(t, n, limbo) {
      assert InfoOk(s, n, limbo);
    }
    TablesKept(salt, s, t);
  }

  /** `MakeTried`, from the eviction on: the entry in the way goes back to the new table. */
  function Evict(salt: Salt, s: State, slot: Slot): State {
    if slot in s.tried && s.tried[slot] in s.info then
      var e, u := s.tried[slot], Untry(s, slot);
      var home := u.info[e].NewSlot(salt, u.info[e].source);
      var v := ClearNew(u, home);
      if e in v.info then PutNew(v, e, home).(nNew := v.nNew + 1) else v
    else s
  }

  /** Putting an entry in limbo back into the new table, counted. */
  lemma ReenterKeeps(salt: Salt, s: State, e: int, home: Slot, n: int)
    requires e != n && InvX(salt, s, {n, e}, 0)
    requires home !in s.unk && home == s.info[e].NewSlot(salt, s.info[e].source)
    ensures InvX(salt, PutNew(s, e, home).(nNew := s.nNew + 1), {n}, 0)
  {
    assert InfoOk(s, e, {n, e});
    PutNewKeeps(salt, s, e, home, {n, e}, 0);
    assert {n, e} - {e} == {n};
    CreditMoves(salt, PutNew(s, e, home), {n}, -1, 1);
  }

  lemma EvictKeeps(salt: Salt, s: State, slot: Slot, n: int)
    requires InvX(salt, s, {n}, 0) && slot in s.tried
    ensures s.tried[slot] in s.info && s.tried[slot] != n
    ensures InvX(salt, Evict(salt, s, slot), {n}, 0)
  {
    hide InvX;
    UntryKeeps(salt, s, slot, {n}, 0);
    var e, u := s.tried[slot], Untry(s, slot);
    assert {n} + {e} == {n, e};
    var home := u.info[e].NewSlot(salt, u.info[e].source);
    ClearNewKeeps(salt, u, home, {n, e}, 0);
    ClearNewFacts(u, home);
    ReenterKeeps(salt, ClearNew(u, home), e, home, n);
  }

  /** Eviction moves one entry from tried to new, costs at most one entry, and changes no other. */
  lemma EvictFacts(salt: Salt, s: State, slot: Slot, n: int)
    requires InvX(salt, s, {n}, 0) && slot in s.tried && s.tried[slot] in s.info && s.tried[slot] != n
    ensures var e, t := s.tried[slot], Evict(salt, s, slot);
            var home := s.info[e].NewSlot(salt, s.info[e].source);
            && t.tried == s.tried - {slot} && t.lastGood == s.lastGood && t.idCount == s.idCount
            && t.unk == s.unk[home := e]
            && t.info.Keys == s.info.Keys - Victim(s, home)
            && t.addrs == s.addrs - (set m | m in Victim(s, home) :: s.info[m].addr)
            && n in t.info && e in t.info
            && SameButPos(t.info[n], s.info[n])
            && !t.info[e].inTried
            && (forall m | m in t.info :: t.info[m].Facts() == s.info[m].Facts())
            && (forall m | m in t.info && m != e :: t.info[m].inTried == s.info[m].inTried)
  {
    hide InvX, ClearNew, Info.NewSlot;
    UntryKeeps(salt, s, slot, {n}, 0);
    var e, u := s.tried[slot], Untry(s, slot);
    var home := s.info[e].NewSlot(salt, s.info[e].source);
    SamePeerSameNewSlot(salt, u.info[e], s.info[e], s.info[e].source);
    assert {n} + {e} == {n, e};
    ClearNewKeeps(salt, u, home, {n, e}, 0);
    ClearNewFacts(u, home);
    assert Victim(u, home) == Victim(s, home);
  }

  lemma EvictNone(salt: Salt, s: State, slot: Slot)
    requires slot !in s.tried
    ensures Evict(salt, s, slot) == s
  {
  }

  /** `MakeTried`. */
  function MakeTried(salt: Salt, s: State, n: int): State
    requires n in s.info
  {
    var t := DropBuckets(salt, s, n, NEW_BUCKET_COUNT);
    var u := Evict(salt, t.(nNew := t.nNew - 1), s.info[n].TriedSlot(salt));
    if n in u.info then PutTried(u, n, s.info[n].TriedSlot(salt)) else u
  }

  lemma MakeTriedKeeps(salt: Salt, s: State, n: int)
    requires Inv(salt, s) && n in s.info && !s.info[n].inTried && s.info[n].lastSuccess != 0
    ensures Inv(salt, MakeTried(salt, s, n))
    ensures n in MakeTried(salt, s, n).info && MakeTried(salt, s, n).info[n].inTried
  {
    hide InvX, DropBuckets, Evict, Info.TriedSlot;
    DropAllKeeps(salt, s, n);
    var t := DropBuckets(salt, s, n, NEW_BUCKET_COUNT);
    var t' := t.(nNew := t.nNew - 1);
    var slot := s.info[n].TriedSlot(salt);
    if slot in t'.tried {
      EvictKeeps(salt, t', slot, n);
      EvictFacts(salt, t', slot, n);
    } else {
      EvictNone(salt, t', slot);
    }
    var u := Evict(salt, t', slot);
    SamePeerSameSlot(salt, u.info[n], s.info[n]);
    PutTriedKeeps(salt, u, n, {n}, 0);
    assert {n} - {n} == {};
  }

  /** The tables just before `MakeTried` puts the entry in its slot. */
  function Cleared(salt: Salt, s: State, n: int): State
    requires n in s.info
  {
    var t := DropBuckets(salt, s, n, NEW_BUCKET_COUNT);
    Evict(salt, t.(nNew := t.nNew - 1), s.info[n].TriedSlot(salt))
  }

  /** From `s` to `u` the tried slot was emptied: its entry is new again, at most one other entry is
      forgotten, and nothing else about the peers has changed. */
  ghost predicate Emptied(s: State, u: State, slot: Slot) {
    && u.tried == s.tried - {slot} && u.lastGood == s.lastGood && u.idCount == s.idCount
    && u.info.Keys <= s.info.Keys && |s.info.Keys - u.info.Keys| <= 1
    && (slot !in s.tried ==> u.info.Keys == s.info.Keys)
    && (slot in s.tried ==> s.tried[slot] in u.info && !u.info[s.tried[slot]].inTried)
    && (forall m | m in u.info :: u.info[m].Facts() == s.info[m].Facts())
    && (forall m | m in u.info && !(slot in s.tried && m == s.tried[slot]) :: u.info[m].inTried == s.info[m].inTried)
  }

  lemma EvictEmpties(salt: Salt, s: State, slot: Slot, n: int)
    requires InvX(salt, s, {n}, 0) && n in s.info
    ensures n in Evict(salt, s, slot).info && Emptied(s, Evict(salt, s, slot), slot)
    ensures slot in s.tried ==> s.tried[slot] != n
  {
    hide InvX, Evict, Info.NewSlot, Victim, SameButPos;
    if slot in s.tried {
      EvictKeeps(salt, s, slot, n);
      EvictFacts(salt, s, slot, n);
      var e := s.tried[slot];
      VictimIsOne(s, s.info[e].NewSlot(salt, s.info[e].source));
    } else {
      EvictNone(salt, s, slot);
      assert s.info.Keys - s.info.Keys == {};
    }
  }

  lemma ClearedFacts(salt: Salt, s: State, n: int)
    requires Inv(salt, s) && n in s.info && !s.info[n].inTried
    ensures var u, slot := Cleared(salt, s, n), s.info[n].TriedSlot(salt);
            n in u.info && Emptied(s, u, slot) && (slot in s.tried ==> s.tried[slot] != n)
  {
    hide InvX, Inv, DropBuckets, Evict, Info.TriedSlot;
    DropAllKeeps(salt, s, n);
    var t := DropBuckets(salt, s, n, NEW_BUCKET_COUNT);
    var t' := t.(nNew := t.nNew - 1);
    EvictEmpties(salt, t', s.info[n].TriedSlot(salt), n);
    assert t'.info.Keys == s.info.Keys;
  }

  /** What `MakeTried` does: the entry becomes tried, the one in its slot becomes new again, at most
      one other entry is forgotten, and nothing known about the remaining peers is lost. */
  lemma MakeTriedFacts(salt: Salt, s: State, n: int)
    requires Inv(salt, s) && n in s.info && !s.info[n].inTried && s.info[n].lastSuccess != 0
    ensures var t, slot := MakeTried(salt, s, n), s.info[n].TriedSlot(salt);
            && n in t.info && t.info[n].inTried
            && t.tried == s.tried[slot := n] && t.lastGood == s.lastGood && t.idCount == s.idCount
            && t.info.Keys <= s.info.Keys && |s.info.Keys - t.info.Keys| <= 1
            && (slot !in s.tried ==> t.info.Keys == s.info.Keys)
            && (slot in s.tried ==> s.tried[slot] in t.info && !t.info[s.tried[slot]].inTried)
            && (forall m | m in t.info :: t.info[m].Facts() == s.info[m].Facts())
            && (forall m | m in t.info && m != n && !(slot in s.tried && m == s.tried[slot]) :: t.info[m].inTried == s.info[m].inTried)
  {
    hide Inv, Cleared, Info.TriedSlot, MakeTried;
    ClearedFacts(salt, s, n);
    MakeTriedIsPut(salt, s, n);
    var u, slot := Cleared(salt, s, n), s.info[n].TriedSlot(salt);
    assert PutTried(u, n, slot).info.Keys == u.info.Keys;
    assert (s.tried - {slot})[slot := n] == s.tried[slot := n];
  }

  /** The references of other entries. */
  ghost function WithoutRefs(unk: map<Slot, int>, n: int): map<Slot, int> {
    map slot | slot in unk && unk[slot] != n :: unk[slot]
  }

  lemma {:induction false} DropBucketsSlots(salt: Salt, s: State, n: int, k: nat)
    ensures DropBuckets(salt, s, n, k).unk.Keys <= s.unk.Keys
    ensures forall slot | slot in s.unk ::
              if slot in DropBuckets(salt, s, n, k).unk then DropBuckets(salt, s, n, k).unk[slot] == s.unk[slot] else s.unk[slot] == n
    decreases k
  {
    if k > 0 {
      DropBucketsSlots(salt, s, n, k - 1);
    }
  }

  lemma DropAllSlots(salt: Salt, s: State, n: int)
    requires TablesOk(salt, s) && n in s.info
    ensures DropBuckets(salt, s, n, NEW_BUCKET_COUNT).unk == WithoutRefs(s.unk, n)
  {
    hide TablesOk, DropBuckets;
    DropBucketsSlots(salt, s, n, NEW_BUCKET_COUNT);
    DropAllLeavesNone(salt, s, n);
    var unk := DropBuckets(salt, s, n, NEW_BUCKET_COUNT).unk;
    forall slot | slot in unk ensures unk[slot] != n {
      assert unk[slot] == n ==> slot in SlotsOf(unk, n);
    }
  }

  /** The new table when entry `n` has become tried: all references to it are gone, and the one displaced from the
      tried slot has one, in its own slot; forgotten is only an entry that had its last reference there. */
  ghost predicate Displaced(salt: Salt, s: State, t: State, n: int)
    requires n in s.info
  {
    var slot, rest := s.info[n].TriedSlot(salt), WithoutRefs(s.unk, n);
    if slot !in s.tried then t.unk == rest && t.info.Keys == s.info.Keys else
    && s.tried[slot] in s.info
    && var e := s.info[s.tried[slot]];
       var home := e.NewSlot(salt, e.source);
       && t.unk == rest[home := s.tried[slot]]
       && t.info.Keys ==
          s.info.Keys - (if home in rest && rest[home] in s.info && s.info[rest[home]].refCount == 1 then {rest[home]} else {})
  }

  lemma MakeTriedTable(salt: Salt, s: State, n: int)
    requires Inv(salt, s) && n in s.info && !s.info[n].inTried
    ensures Displaced(salt, s, MakeTried(salt, s, n), n)
  {
    hide InvX, Inv, DropBuckets, Evict, Info.TriedSlot, Info.NewSlot, TablesOk;
    DroppingStarts(salt, s, n);
    DropAllSlots(salt, s, n);
    DropAllKeeps(salt, s, n);
    var t := DropBuckets(salt, s, n, NEW_BUCKET_COUNT);
    var t', slot := t.(nNew := t.nNew - 1), s.info[n].TriedSlot(salt);
    assert t'.info.Keys == s.info.Keys;
    if slot in s.tried {
      EvictKeeps(salt, t', slot, n);
      EvictFacts(salt, t', slot, n);
    } else {
      EvictNone(salt, t', slot);
    }
    var u := Evict(salt, t', slot);
    assert PutTried(u, n, slot).info.Keys == u.info.Keys;
  }

  lemma MakeTriedIsPut(salt: Salt, s: State, n: int)
    requires n in s.info && n in Cleared(salt, s, n).info
    ensures MakeTried(salt, s, n) == PutTried(Cleared(salt, s, n), n, s.info[n].TriedSlot(salt))
  {
  }

  lemma VictimIsOne(s: State, slot: Slot)
    ensures |Victim(s, slot)| <= 1
    ensures forall keys: set<int> :: |keys - (keys - Victim(s, slot))| <= 1
  {
    forall keys: set<int> ensures |keys - (keys - Victim(s, slot))| <= 1 {
      assert keys - (keys - Victim(s, slot)) == keys * Victim(s, slot);
      if Victim(s, slot) == {} {
        assert keys * Victim(s, slot) == {};
      } else {
        var n := s.unk[slot];
        assert keys * Victim(s, slot) == if n in keys then {n} else {};
      }
    }
  }

  // ---------------------------------------------------------------- walking over the new table

  /** The slots a walk over the buckets visits before position `i` of bucket `b`. */
  predicate Before(slot: Slot, b: int, i: int) {
    slot.0 < b || (slot.0 == b && slot.1 < i)
  }

  /** The slots of `n` met before position `i` of bucket `b`. */
  ghost function Seen(s: State, n: int, b: int, i: int): set<Slot> {
    set slot | slot in SlotsOf(s.unk, n) && Before(slot, b, i)
  }

  lemma SeenStep(s: State, n: int, b: int, i: int)
    ensures (b, i) in s.unk && s.unk[(b, i)] == n ==> |Seen(s, n, b, i + 1)| == |Seen(s, n, b, i)| + 1
    ensures (b, i) in s.unk && s.unk[(b, i)] == n ==> |Seen(s, n, b, i)| < |SlotsOf(s.unk, n)|
    ensures !((b, i) in s.unk && s.unk[(b, i)] == n) ==> Seen(s, n, b, i + 1) == Seen(s, n, b, i)
  {
    if (b, i) in s.unk && s.unk[(b, i)] == n {
      assert Seen(s, n, b, i + 1) == Seen(s, n, b, i) + {(b, i)};
      assert Seen(s, n, b, i) + {(b, i)} <= SlotsOf(s.unk, n);
      SmallerSet(Seen(s, n, b, i) + {(b, i)}, SlotsOf(s.unk, n));
    }
  }
}
