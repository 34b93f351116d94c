/** The address manager itself (src/addrman.cpp, src/addrman.h): its maps, its list of ids and its
    two tables of buckets, updated in place. Every method is proved to do to the tables what the
    function of the same name does to the value that stands for them. */
module AddrMan {
  import opened Common
  import opened AddrState
  import opened AddrOps

  ghost function AllSlots(m: nat, n: nat): set<Slot> {
    set b, p | 0 <= b < m && 0 <= p < n :: (b, p)
  }

  /** A table of buckets as a map; -1 marks a free slot. */
  ghost function Table(a: array2<int>): (t: map<Slot, int>)
    reads a
    ensures forall b, p | 0 <= b < a.Length0 && 0 <= p < a.Length1 ::
              if a[b, p] == -1 then (b, p) !in t else (b, p) in t && t[(b, p)] == a[b, p]
    ensures forall slot | slot in t :: 0 <= slot.0 < a.Length0 && 0 <= slot.1 < a.Length1 && t[slot] == a[slot.0, slot.1]
  {
    map slot | slot in AllSlots(a.Length0, a.Length1) && a[slot.0, slot.1] != -1 :: a[slot.0, slot.1]
  }

  method SetSlot(a: array2<int>, b: int, p: int, id: int)
    requires 0 <= b < a.Length0 && 0 <= p < a.Length1
    modifies a
    ensures a[b, p] == id
    ensures Table(a) == if id == -1 then old(Table(a)) - {(b, p)} else old(Table(a))[(b, p) := id]
  {
    assert (b, p) in AllSlots(a.Length0, a.Length1);
    a[b, p] := id;
  }

  method RandomInt(max: int) returns (r: int)
    requires 0 < max
    ensures 0 <= r < max
  {
    r :| 0 <= r < max;
  }

  class AddrMan {
    const salt: Salt
    const vvTried: array2<int>
    const vvNew: array2<int>
    const nullKey: bool

    var nIdCount: int
    var mapInfo: map<int, Info>
    var mapAddr: map<NetAddr, int>
    var vRandom: seq<int>
    var nTried: int
    var nNew: int
    var nLastGood: int

    ghost predicate Shape() {
      && vvTried != vvNew
      && vvTried.Length0 == TRIED_BUCKET_COUNT && vvTried.Length1 == BUCKET_SIZE
      && vvNew.Length0 == NEW_BUCKET_COUNT && vvNew.Length1 == BUCKET_SIZE
    }

    ghost function S(): State
      reads this, vvTried, vvNew
    {
      State(nIdCount, mapInfo, mapAddr, vRandom, nTried, Table(vvTried), nNew, Table(vvNew), nLastGood)
    }

    ghost predicate Valid()
      reads this, vvTried, vvNew
    {
      Shape() && Inv(salt, S())
    }

    constructor (salt: Salt, nullKey: bool)
      ensures Valid() && this.salt == salt && this.nullKey == nullKey
      ensures S() == EMPTY
    {
      this.salt, this.nullKey := salt, nullKey;
      vvTried := new int[TRIED_BUCKET_COUNT, BUCKET_SIZE]((_, _) => -1);
      vvNew := new int[NEW_BUCKET_COUNT, BUCKET_SIZE]((_, _) => -1);
      nIdCount, mapInfo, mapAddr, vRandom, nTried, nNew, nLastGood := 0, map[], map[], [], 0, 0, 1;
      new;
      assert Table(vvTried) == map[] && Table(vvNew) == map[];
      EmptyIsConsistent(salt);
    }

    method SwapRandom(j: int, k: int)
      requires Shape()
      requires 0 <= j < |vRandom| && 0 <= k < |vRandom| && vRandom[j] in mapInfo && vRandom[k] in mapInfo
      modifies this`mapInfo, this`vRandom
      ensures S() == Swap(old(S()), j, k)
    {
      hide Table;
      if j == k {
        return;
      }
      var n, m := vRandom[j], vRandom[k];
      mapInfo := mapInfo[n := mapInfo[n].(randomPos := k)];
      mapInfo := mapInfo[m := mapInfo[m].(randomPos := j)];
      vRandom := vRandom[j := m];
      vRandom := vRandom[k := n];
    }

    /** The tables stay consistent when the entry is in limbo, as its assertions demand. */
    method Delete(n: int, ghost limbo: set<int>, ghost credit: int)
      requires Shape() && CanDelete(S(), n)
      requires !mapInfo[n].inTried && mapInfo[n].refCount == 0
      modifies this`mapInfo, this`mapAddr, this`vRandom, this`nNew
      ensures S() == AddrState.Delete(old(S()), n)
      ensures n in limbo && old(InvX(salt, S(), limbo, credit)) ==> InvX(salt, S(), limbo - {n}, credit - 1)
    {
      hide Table, InvX;
      DeleteIfConsistent(salt, S(), n, limbo, credit);
      var a := mapInfo[n].addr;
      SwapRandom(mapInfo[n].randomPos, |vRandom| - 1);
      hide Swap, CanDelete;
      vRandom := vRandom[..|vRandom| - 1];
      mapAddr := mapAddr - {a};
      mapInfo := mapInfo - {n};
      nNew := nNew - 1;
    }

    /** Its assertion that the entry in the slot has a reference holds whenever the tables are
        consistent, also in the middle of another operation. */
    method ClearNew(b: int, p: int, ghost limbo: set<int>, ghost credit: int)
      requires Shape() && InvX(salt, S(), limbo, credit)
      requires 0 <= b < NEW_BUCKET_COUNT && 0 <= p < BUCKET_SIZE
      modifies this`mapInfo, this`mapAddr, this`vRandom, this`nNew, vvNew
      ensures S() == AddrState.ClearNew(old(S()), (b, p))
      ensures vvNew[b, p] == -1
    {
      hide InvX;
      ClearNewKeeps(salt, S(), (b, p), limbo, credit);
      ClearNewFacts(S(), (b, p));
      if vvNew[b, p] != -1 {
        var n := vvNew[b, p];
        assert mapInfo[n].refCount > 0;
        EntryIsNew(salt, S(), (b, p), limbo, credit);
        mapInfo := mapInfo[n := mapInfo[n].(refCount := mapInfo[n].refCount - 1)];
        SetSlot(vvNew, b, p, -1);
        assert S() == DropSlot(old(S()), (b, p));
        if mapInfo[n].refCount == 0 {
          Delete(n, limbo + {n}, credit + 1);
        }
      }
    }

    method RemoveFromTried(b: int, p: int)
      requires Shape() && 0 <= b < TRIED_BUCKET_COUNT && 0 <= p < BUCKET_SIZE && vvTried[b, p] != -1 && vvTried[b, p] in mapInfo
      modifies this`mapInfo, this`nTried, vvTried
      ensures S() == Untry(old(S()), (b, p)) && vvTried[b, p] == -1
    {
      var e := vvTried[b, p];
      mapInfo := mapInfo[e := mapInfo[e].(inTried := false)];
      SetSlot(vvTried, b, p, -1);
      nTried := nTried - 1;
    }

    method EnterNew(e: int, b: int, p: int)
      requires Shape() && 0 <= b < NEW_BUCKET_COUNT && 0 <= p < BUCKET_SIZE && e in mapInfo && e != -1 && mapInfo[e].refCount == 0
      modifies this`mapInfo, this`nNew, vvNew
      ensures S() == PutNew(old(S()), e, (b, p)).(nNew := old(nNew) + 1)
    {
      hide Table;
      mapInfo := mapInfo[e := mapInfo[e].(refCount := 1)];
      SetSlot(vvNew, b, p, e);
      nNew := nNew + 1;
    }

    /** The eviction in `MakeTried`: the entry in a tried slot goes back to the new table. */
    method EvictTried(b: int, p: int, ghost n: int)
      requires Shape() && InvX(salt, S(), {n}, 0)
      requires 0 <= b < TRIED_BUCKET_COUNT && 0 <= p < BUCKET_SIZE && vvTried[b, p] != -1
      modifies this`mapInfo, this`mapAddr, this`vRandom, this`nNew, this`nTried, vvNew, vvTried
      ensures S() == Evict(salt, old(S()), (b, p))
      ensures vvTried[b, p] == -1
    {
      hide InvX, AddrState.ClearNew, PutNew, Table;
      var e := vvTried[b, p];
      UntryKeeps(salt, S(), (b, p), {n}, 0);
      RemoveFromTried(b, p);
      assert {n} + {e} == {n, e};
      var ub := mapInfo[e].NewBucket(salt, mapInfo[e].source);
      var up := mapInfo[e].BucketPosition(salt, true, ub);
      ghost var u := S();
      InLimbo(salt, u, {n, e}, 0, e);
      ClearNewKeeps(salt, u, (ub, up), {n, e}, 0);
      ClearNewFacts(u, (ub, up));
      ClearNew(ub, up, {n, e}, 0);
      assert vvNew[ub, up] == -1;
      EnterNew(e, ub, up);
    }

    method DropOne(n: int, bucket: int)
      requires Shape() && n in mapInfo && n != -1 && 0 <= bucket < NEW_BUCKET_COUNT
      modifies this`mapInfo, vvNew
      ensures var slot := (bucket, old(mapInfo)[n].BucketPosition(salt, true, bucket));
              S() == if slot in old(S()).unk && old(S()).unk[slot] == n then DropSlot(old(S()), slot) else old(S())
    {
      var pos := mapInfo[n].BucketPosition(salt, true, bucket);
      if vvNew[bucket, pos] == n {
        SetSlot(vvNew, bucket, pos, -1);
        mapInfo := mapInfo[n := mapInfo[n].(refCount := mapInfo[n].refCount - 1)];
      }
    }

    method DropReferences(n: int)
      requires Shape() && n in mapInfo && n != -1
      modifies this`mapInfo, vvNew
      ensures S() == DropBuckets(salt, old(S()), n, NEW_BUCKET_COUNT)
    {
      hide Table, Info.BucketPosition;
      ghost var s := S();
      for bucket := 0 to NEW_BUCKET_COUNT
        invariant n in mapInfo && S() == DropBuckets(salt, s, n, bucket)
      {
        DropBucketsFacts(salt, s, n, bucket);
        SamePeerSamePosition(salt, mapInfo[n], s.info[n], bucket);
        DropOne(n, bucket);
      }
    }

    method EnterTried(n: int, b: int, p: int)
      requires Shape() && 0 <= b < TRIED_BUCKET_COUNT && 0 <= p < BUCKET_SIZE && n in mapInfo && n != -1
      modifies this`mapInfo, this`nTried, vvTried
      ensures S() == PutTried(old(S()), n, (b, p))
    {
      SetSlot(vvTried, b, p, n);
      nTried := nTried + 1;
      mapInfo := mapInfo[n := mapInfo[n].(inTried := true)];
    }

    /** `MakeTried`. All its assertions hold: no reference is left after the buckets are cleared, the
        new slot of an evicted entry is free when it is filled, and so is the tried slot. */
    method MakeTried(n: int)
      requires Valid() && n in mapInfo && !mapInfo[n].inTried && mapInfo[n].lastSuccess != 0
      modifies this`mapInfo, this`mapAddr, this`vRandom, this`nNew, this`nTried, vvNew, vvTried
      ensures Valid()
      ensures S() == AddrState.MakeTried(salt, old(S()), n)
    {
      hide InvX, DropBuckets, Evict, PutTried;
      ghost var s := S();
      EntryBasics(salt, s, n);
      MakeTriedKeeps(salt, s, n);
      DropAllKeeps(salt, s, n);
      DropReferences(n);
      nNew := nNew - 1;
      assert mapInfo[n].refCount == 0;
      ghost var t := S();
      var kb := mapInfo[n].TriedBucket(salt);
      var kp := mapInfo[n].BucketPosition(salt, false, kb);
      if vvTried[kb, kp] != -1 {
        EvictKeeps(salt, t, (kb, kp), n);
        EvictFacts(salt, t, (kb, kp), n);
        EvictTried(kb, kp, n);
      } else {
        EvictNone(salt, t, (kb, kp));
      }
      assert vvTried[kb, kp] == -1;
      EnterTried(n, kb, kp);
    }

    /** The search in `Good_` for a bucket the entry is in, from a random one onwards. It always
        finds one, so the exit after it is never taken. */
    method FindBucket(n: int) returns (bucket: int)
      requires Valid() && n in mapInfo && !mapInfo[n].inTried
      ensures 0 <= bucket < NEW_BUCKET_COUNT
      ensures vvNew[bucket, mapInfo[n].BucketPosition(salt, true, bucket)] == n
    {
      hide Inv, Table, Info.BucketPosition;
      var start := RandomInt(NEW_BUCKET_COUNT);
      bucket := -1;
      var k := 0;
      while k < NEW_BUCKET_COUNT && bucket == -1
        invariant 0 <= k <= NEW_BUCKET_COUNT
        invariant bucket == -1 || (0 <= bucket < NEW_BUCKET_COUNT && vvNew[bucket, mapInfo[n].BucketPosition(salt, true, bucket)] == n)
        invariant bucket == -1 ==> forall b | 0 <= b < NEW_BUCKET_COUNT && Offset(b, start) < k :: !HeldIn(n, b)
      {
        var b := (k + start) % NEW_BUCKET_COUNT;
        if vvNew[b, mapInfo[n].BucketPosition(salt, true, b)] == n {
          bucket := b;
        }
        forall c | 0 <= c < NEW_BUCKET_COUNT && Offset(c, start) == k ensures c == b {
          Around(c, start);
        }
        k := k + 1;
      }
      if bucket == -1 {
        forall b | 0 <= b < NEW_BUCKET_COUNT ensures !HeldIn(n, b) {
          Around(b, start);
        }
        HeldSomewhere(n);
        assert false;
      }
    }

    ghost predicate HeldIn(n: int, b: int)
      requires Shape() && n in mapInfo && 0 <= b < NEW_BUCKET_COUNT
      reads this, vvNew
    {
      vvNew[b, mapInfo[n].BucketPosition(salt, true, b)] == n
    }

    lemma HeldSomewhere(n: int)
      requires Valid() && n in mapInfo && !mapInfo[n].inTried
      ensures exists b | 0 <= b < NEW_BUCKET_COUNT :: HeldIn(n, b)
    {
      var s := S();
      EntryBasics(salt, s, n);
      assert SlotsOf(s.unk, n) != {};
      var slot :| slot in SlotsOf(s.unk, n);
      assert NewSlotOk(salt, s, slot);
      assert HeldIn(n, slot.0);
    }

    /** `Good_`. */
    method Good(a: NetAddr, port: int, time: int)
      requires Valid() && 0 < time
      modifies this`mapInfo, this`mapAddr, this`vRandom, this`nNew, this`nTried, this`nLastGood, vvNew, vvTried
      ensures Valid()
      ensures S() == AddrOps.Good(salt, old(S()), a, port, time)
    {
      hide InvX, AddrState.MakeTried;
      GoodKeeps(salt, S(), a, port, time);
      nLastGood := time;
      if a !in mapAddr || mapAddr[a] !in mapInfo {
        return;
      }
      var n := mapAddr[a];
      if !mapInfo[n].SameService(a, port) {
        return;
      }
      MarkGoodKeeps(salt, old(S()), n, time);
      mapInfo := mapInfo[n := mapInfo[n].(lastSuccess := time, lastTry := time, attempts := 0)];
      assert S() == Note(old(S()).(lastGood := time), n, MarkGood(old(mapInfo)[n], time));
      if mapInfo[n].inTried {
        return;
      }
      var bucket := FindBucket(n);
      if bucket == -1 {
        return;
      }
      MakeTried(n);
    }

    method CreateEntry(a: Address, source: NetAddr, penalty: int) returns (n: int)
      requires Shape()
      modifies this`mapInfo, this`mapAddr, this`vRandom, this`nNew, this`nIdCount
      ensures n == old(nIdCount)
      ensures S() == Enter(old(S()), a, source, penalty)
    {
      hide Table;
      n := nIdCount;
      nIdCount := nIdCount + 1;
      var i := Info(a.addr, a.port, a.time, a.services, source, 0, 0, 0, 0, 0, false, -1);
      mapInfo := mapInfo[n := i];
      mapAddr := mapAddr[a.addr := n];
      mapInfo := mapInfo[n := mapInfo[n].(randomPos := |vRandom|)];
      vRandom := vRandom + [n];
      mapInfo := mapInfo[n := mapInfo[n].(time := Max(0, mapInfo[n].time - penalty))];
      nNew := nNew + 1;
      assert mapInfo == old(mapInfo)[n := NewInfo(a, source, penalty).(randomPos := |old(vRandom)|)];
    }

    /** The end of `Add_`. */
    method PlaceEntry(n: int, source: NetAddr, now: int, ghost limbo: set<int>)
      requires Shape() && n in mapInfo && n != -1 && (limbo == {} || limbo == {n})
      requires InvX(salt, S(), limbo, |limbo|)
      requires !mapInfo[n].inTried && mapInfo[n].refCount < NEW_BUCKETS_PER_ADDRESS
      requires mapInfo[n].refCount == 0 <==> n in limbo
      modifies this`mapInfo, this`mapAddr, this`vRandom, this`nNew, vvNew
      ensures Valid()
      ensures S() == Place(salt, old(S()), n, source, now)
    {
      hide InvX, AddrState.ClearNew, AddrState.Delete, Table;
      ghost var s := S();
      PlaceKeeps(salt, s, n, source, now, limbo);
      var b := mapInfo[n].NewBucket(salt, source);
      var p := mapInfo[n].BucketPosition(salt, true, b);
      ClearNewKeeps(salt, s, (b, p), limbo, |limbo|);
      if vvNew[b, p] != n {
        var insert := vvNew[b, p] == -1;
        if !insert {
          var existing := mapInfo[vvNew[b, p]];
          if existing.IsTerrible(now) || (existing.refCount > 1 && mapInfo[n].refCount == 0) {
            insert := true;
          }
        }
        if insert {
          ClearNewFacts(s, (b, p));
          ClearNew(b, p, limbo, |limbo|);
          AddReference(n, b, p);
        } else if mapInfo[n].refCount == 0 {
          DeleteKeeps(salt, s, n, limbo, |limbo|);
          Delete(n, limbo, |limbo|);
        }
      }
    }

    method AddReference(n: int, b: int, p: int)
      requires Shape() && n in mapInfo && n != -1 && 0 <= b < NEW_BUCKET_COUNT && 0 <= p < BUCKET_SIZE
      modifies this`mapInfo, vvNew
      ensures S() == PutNew(old(S()), n, (b, p))
    {
      hide Table;
      mapInfo := mapInfo[n := mapInfo[n].(refCount := mapInfo[n].refCount + 1)];
      SetSlot(vvNew, b, p, n);
    }

    /** The draw that makes another reference twice as hard to get as the one before; `coin` is any number. */
    method Draw(refCount: int, coin: nat) returns (lucky: bool)
      ensures lucky <==> coin % Pow2(Max(0, refCount)) == 0
    {
      var factor := 1;
      for k := 0 to Max(0, refCount)
        invariant factor == Pow2(k)
      {
        factor := factor * 2;
      }
      lucky := factor <= 1 || coin % factor == 0;
    }

    /** `Add_`. */
    method Add(a: Address, source: NetAddr, timePenalty: int, now: int, coin: nat) returns (isNew: bool)
      requires Valid()
      modifies this`mapInfo, this`mapAddr, this`vRandom, this`nNew, this`nIdCount, vvNew
      ensures Valid()
      ensures (S(), isNew) == AddrOps.Add(salt, old(S()), a, source, timePenalty, now, Wins(old(S()), a.addr, coin))
    {
      hide InvX, Place, Table;
      ghost var s := S();
      AddKeeps(salt, s, a, source, timePenalty, now, true);
      if !a.routable {
        return false;
      }
      var penalty := if a.addr == source then 0 else timePenalty;
      if a.addr in mapAddr && mapAddr[a.addr] in mapInfo {
        var n := mapAddr[a.addr];
        EntryBasics(salt, s, n);
        var i := Refresh(mapInfo[n], a, penalty, now);
        NoteKeeps(salt, s, n, i, {}, 0);
        mapInfo := mapInfo[n := i];
        assert S() == Note(s, n, i);
        if a.time == 0 || (i.time != 0 && a.time <= i.time) || i.inTried || i.refCount == NEW_BUCKETS_PER_ADDRESS {
          return false;
        }
        var won := Draw(i.refCount, coin);
        if !won {
          return false;
        }
        PlaceEntry(n, source, now, {});
        return false;
      } else {
        KnownIsIndexed(salt, s, a.addr);
        EnterKeeps(salt, s, a, source, penalty);
        var n := CreateEntry(a, source, penalty);
        PlaceEntry(n, source, now, {n});
        return true;
      }
    }

    /** `Attempt_`. */
    method Attempt(a: NetAddr, port: int, countFailure: bool, time: int)
      requires Valid() && 0 <= time
      modifies this`mapInfo
      ensures Valid()
      ensures S() == AddrOps.Attempt(old(S()), a, port, countFailure, time)
    {
      hide InvX, Table;
      NotesKeep(salt, S(), a, port, countFailure, time, {});
      if a in mapAddr && mapAddr[a] in mapInfo {
        var n := mapAddr[a];
        if mapInfo[n].SameService(a, port) {
          mapInfo := mapInfo[n := mapInfo[n].(lastTry := time)];
          if countFailure && mapInfo[n].lastCountAttempt < nLastGood {
            mapInfo := mapInfo[n := mapInfo[n].(lastCountAttempt := time, attempts := mapInfo[n].attempts + 1)];
            assert mapInfo == old(mapInfo)[n := mapInfo[n]];
          }
        }
      }
    }

    /** `Connected_`. */
    method Connected(a: NetAddr, port: int, time: int)
      requires Valid() && 0 <= time
      modifies this`mapInfo
      ensures Valid()
      ensures S() == AddrOps.Connected(old(S()), a, port, time)
    {
      hide InvX, Table;
      NotesKeep(salt, S(), a, port, false, time, {});
      if a in mapAddr && mapAddr[a] in mapInfo {
        var n := mapAddr[a];
        if mapInfo[n].SameService(a, port) && time - mapInfo[n].time > 20 * 60 {
          mapInfo := mapInfo[n := mapInfo[n].(time := time)];
        }
      }
    }

    /** `SetServices_`. */
    method SetServices(a: NetAddr, port: int, services: set<nat>)
      requires Valid()
      modifies this`mapInfo
      ensures Valid()
      ensures S() == AddrOps.SetServices(old(S()), a, port, services)
    {
      hide InvX, Table;
      NotesKeep(salt, S(), a, port, false, 0, services);
      if a in mapAddr && mapAddr[a] in mapInfo {
        var n := mapAddr[a];
        if mapInfo[n].SameService(a, port) {
          mapInfo := mapInfo[n := mapInfo[n].(services := services)];
        }
      }
    }

    /** `GetAddr_`: a random selection of addresses that are not terrible, without repetition, at most
        23 percent of the known ones and at most 2500; every such address when that leaves room. */
    method GetAddr(now: int) returns (v: seq<Info>, ghost ids: seq<int>)
      requires Valid()
      modifies this`mapInfo, this`vRandom
      ensures Valid() && SamePeers(old(mapInfo), mapInfo)
      ensures |v| == |ids| <= 2500 && 100 * |v| <= 23 * |vRandom|
      ensures NoDuplicates(ids)
      ensures forall k | 0 <= k < |ids| :: Picked(old(mapInfo), ids[k], v[k], now)
      ensures |v| < 2500 && 100 * (|v| + 1) <= 23 * |vRandom| ==> forall n | n in old(mapInfo) && !old(mapInfo)[n].IsTerrible(now) :: n in ids
    {
      hide Inv, Table, SamePeers, Selected, Info.IsTerrible;
      v, ids := [], [];
      var nodes := Limit(|vRandom|);
      var n := 0;
      SamePeersSelf(mapInfo);
      SelectNone(mapInfo, now);
      while n < |vRandom| && |v| < nodes
        invariant 0 <= n <= |vRandom| == |old(vRandom)|
        invariant Valid() && SamePeers(old(mapInfo), mapInfo)
        invariant |v| <= nodes && Selected(old(mapInfo), vRandom[..n], ids, v, now)
      {
        ghost var before := mapInfo;
        PickNext(n);
        SamePeersTwice(old(mapInfo), before, mapInfo);
        assert vRandom[..n + 1] == vRandom[..n] + [vRandom[n]];
        var ai := mapInfo[vRandom[n]];
        SelectNext(old(mapInfo), vRandom[..n], ids, v, now, vRandom[n], ai, mapInfo);
        if !ai.IsTerrible(now) {
          v := v + [ai];
          ids := ids + [vRandom[n]];
        }
        n := n + 1;
      }
      assert vRandom[..|vRandom|] == vRandom;
      SelectedAll(salt, old(mapInfo), S(), vRandom[..n], ids, v, now);
    }

    /** One round of the shuffle in `GetAddr_`. */
    method PickNext(n: int)
      requires Valid() && 0 <= n < |vRandom|
      modifies this`mapInfo, this`vRandom
      ensures Valid() && SamePeers(old(mapInfo), mapInfo) && |vRandom| == |old(vRandom)|
      ensures vRandom[..n] == old(vRandom)[..n]
      ensures vRandom[n] in mapInfo && vRandom[n] !in vRandom[..n]
    {
      hide InvX, Table;
      var r := RandomInt(|vRandom| - n);
      ghost var s := S();
      RandomIsIndexed(salt, s);
      SwapKeeps(salt, s, n, r + n, {}, 0);
      SwapFacts(s, n, r + n);
      SwapOrder(s, n, r + n);
      SwapRandom(n, r + n);
      hide Swap;
      NotBefore(salt, S(), n);
    }

    /** The tests of `Check_` on one entry. Looking up a missing address adds it with id 0. */
    method CheckEntry(n: int) returns (code: int)
      requires n in mapInfo
      modifies this`mapAddr
      ensures code == 0 <==> EntryPasses(old(S()), n)
      ensures mapAddr == if code in {-1, -2, -3, -4} || mapInfo[n].addr in old(mapAddr) then old(mapAddr)
                         else old(mapAddr)[mapInfo[n].addr := 0]
    {
      var i := mapInfo[n];
      if i.inTried {
        if i.lastSuccess == 0 { return -1; }
        if i.refCount != 0 { return -2; }
      } else {
        if i.refCount < 0 || i.refCount > NEW_BUCKETS_PER_ADDRESS { return -3; }
        if i.refCount == 0 { return -4; }
      }
      if i.addr !in mapAddr {
        mapAddr := mapAddr[i.addr := 0];
      }
      if mapAddr[i.addr] != n { return -5; }
      if i.randomPos < 0 || i.randomPos >= |vRandom| || vRandom[i.randomPos] != n { return -14; }
      if i.lastTry < 0 { return -6; }
      if i.lastSuccess < 0 { return -8; }
      return 0;
    }

    /** The first loop of `Check_`. */
    method CheckEntries() returns (code: int, setTried: set<int>, mapNew: map<int, int>)
      requires Shape()
      modifies this`mapAddr
      ensures code == 0 <==> EntriesPass(old(S()))
      ensures code == 0 ==> setTried == TriedIds(mapInfo) && mapNew == Counts(mapInfo)
      ensures (forall n | n in mapInfo :: mapInfo[n].addr in old(mapAddr)) ==> mapAddr == old(mapAddr)
    {
      hide Table, EntryPasses, Collected, Counts;
      ghost var s := S();
      setTried, mapNew := {}, map[];
      CollectNone(mapInfo);
      var todo := mapInfo.Keys;
      while todo != {}
        invariant todo <= mapInfo.Keys
        invariant forall n | n in mapInfo && n !in todo :: EntryPasses(s, n)
        invariant Collected(mapInfo, todo, setTried, mapNew)
        invariant Padded(s.addrs, mapAddr)
        invariant (forall n | n in mapInfo :: mapInfo[n].addr in s.addrs) ==> mapAddr == s.addrs
        decreases todo
      {
        Inhabited(todo);
        var n :| n in todo;
        SamePass(s, S(), n);
        code := CheckEntry(n);
        if code != 0 {
          return;
        }
        Collect(mapInfo, todo, setTried, mapNew, n);
        if mapInfo[n].inTried {
          setTried := setTried + {n};
        } else {
          mapNew := mapNew[n := mapInfo[n].refCount];
        }
        todo := todo - {n};
      }
      code := 0;
      CollectedAll(mapInfo, setTried, mapNew);
    }

    /** The loop of `Check_` over the tried table; `left` are the tried entries in no slot. */
    method CheckTried(setTried: set<int>) returns (code: int, left: set<int>)
      requires Shape() && setTried == TriedIds(mapInfo)
      ensures code == 0 <==> TriedPass(salt, S())
      ensures code == 0 ==> (left == {} <==> TriedFound(S()))
    {
      ghost var s := S();
      left := setTried;
      for b := 0 to TRIED_BUCKET_COUNT
        invariant TriedWalk(salt, s, b, 0, setTried, left)
      {
        for i := 0 to BUCKET_SIZE
          invariant TriedWalk(salt, s, b, i, setTried, left)
        {
          assert S() == s;
          if vvTried[b, i] != -1 {
            var n := vvTried[b, i];
            if n !in left { TriedFails(salt, s, b, i, setTried, left); return -11, {}; }
            if mapInfo[n].TriedBucket(salt) != b { assert !TriedSlotOk(salt, s, (b, i)); return -17, {}; }
            if mapInfo[n].BucketPosition(salt, false, b) != i { assert !TriedSlotOk(salt, s, (b, i)); return -18, {}; }
            TriedStep(salt, s, b, i, setTried, left);
            left := left - {n};
          } else {
            TriedStep(salt, s, b, i, setTried, left);
          }
        }
        TriedRow(salt, s, b, setTried, left);
      }
      code := 0;
      TriedEnd(salt, s, setTried, left);
      if left != {} {
        Inhabited(left);
        SomeUntried(s, left);
      }
    }

    /** The loop of `Check_` over the new table: every reference found is taken off its entry's count;
        `left` are the counts that remain. */
    method CheckNew(mapNew: map<int, int>) returns (code: int, left: map<int, int>)
      requires Shape() && mapNew == Counts(mapInfo)
      requires forall n | n in mapNew :: mapNew[n] > 0
      ensures code != 0 ==> !(NewPass(salt, S()) && RefsExact(S()))
      ensures code == 0 ==> NewPass(salt, S()) && (left == map[] <==> RefsExact(S()))
    {
      hide Table, SlotsOf, NewSlotPasses;
      ghost var s := S();
      left := mapNew;
      NewStart(salt, s, mapNew);
      for b := 0 to NEW_BUCKET_COUNT
        invariant NewWalk(salt, s, b, 0, mapNew, left)
      {
        for i := 0 to BUCKET_SIZE
          invariant NewWalk(salt, s, b, i, mapNew, left)
        {
          assert S() == s;
          if vvNew[b, i] != -1 {
            var n := vvNew[b, i];
            if n !in left { NewFails(salt, s, b, i, mapNew, left); return -12, map[]; }
            NewMeets(salt, s, b, i, mapNew, left);
            if mapInfo[n].BucketPosition(salt, true, b) != i { assert !NewPass(salt, s); return -19, map[]; }
            NewStep(salt, s, b, i, mapNew, left);
            if left[n] - 1 == 0 {
              left := left - {n};
            } else {
              left := left[n := left[n] - 1];
            }
          } else {
            NewSkip(salt, s, b, i, mapNew, left);
          }
        }
        NewRow(salt, s, b, mapNew, left);
      }
      code := 0;
      NewEnd(salt, s, mapNew, left);
      if left != map[] {
        SomeUncounted(s, left, mapNew);
      } else {
        AllCounted(s, left, mapNew);
      }
    }

    /** `Check_`. It accepts exactly what the invariant says, apart from what it does not look at, and a
        key that is not null; on a consistent manager it changes nothing. */
    method Check() returns (code: int)
      requires Shape()
      modifies this`mapAddr
      ensures code == 0 <==> CheckPasses(salt, old(S())) && !nullKey
      ensures old(Valid()) ==> (code == 0 <==> !nullKey) && S() == old(S())
    {
      hide Table, EntriesPass, TriedPass, TriedFound, NewPass, RefsExact, Inv, Unchecked;
      ghost var s := S();
      CheckIsTheInvariant(salt, s);
      if |vRandom| != nTried + nNew { return -7; }
      var setTried, mapNew;
      code, setTried, mapNew := CheckEntries();
      if code != 0 { return; }
      CountsArePositive(s, mapNew);
      SameTables(salt, s, S());
      IndexIsComplete(s);
      if |setTried| != nTried { return -9; }
      if |mapNew| != nNew { return -10; }
      var leftTried, leftNew;
      code, leftTried := CheckTried(setTried);
      if code != 0 { return; }
      code, leftNew := CheckNew(mapNew);
      if code != 0 { return; }
      if leftTried != {} { return -13; }
      if leftNew != map[] { return -15; }
      if nullKey { return -16; }
      return 0;
    }
  }

  lemma DeleteIfConsistent(salt: Salt, s: State, n: int, limbo: set<int>, credit: int)
    ensures n in limbo && InvX(salt, s, limbo, credit) ==> InvX(salt, AddrState.Delete(s, n), limbo - {n}, credit - 1)
  {
    hide InvX;
    if n in limbo && InvX(salt, s, limbo, credit) {
      DeleteKeeps(salt, s, n, limbo, credit);
    }
  }

  lemma EntryIsNew(salt: Salt, s: State, slot: Slot, limbo: set<int>, credit: int)
    requires InvX(salt, s, limbo, credit) && slot in s.unk
    ensures s.unk[slot] in s.info && !s.info[s.unk[slot]].inTried
  {
    assert NewSlotOk(salt, s, slot);
  }

  lemma InLimbo(salt: Salt, s: State, limbo: set<int>, credit: int, n: int)
    requires InvX(salt, s, limbo, credit) && n in limbo
    ensures n in s.info && s.info[n].refCount == 0 && !s.info[n].inTried && 0 <= n
  {
    assert InfoOk(s, n, limbo);
  }

  /** How many buckets after `start` bucket `c` comes, going around. */
  function Offset(c: int, start: int): int {
    (c - start) % NEW_BUCKET_COUNT
  }

  lemma Around(c: int, start: int)
    requires 0 <= c < NEW_BUCKET_COUNT && 0 <= start < NEW_BUCKET_COUNT
    ensures 0 <= Offset(c, start) < NEW_BUCKET_COUNT && (Offset(c, start) + start) % NEW_BUCKET_COUNT == c
  {
    if c < start {
      assert (c - start) % NEW_BUCKET_COUNT == c - start + NEW_BUCKET_COUNT;
    } else {
      assert (c - start) % NEW_BUCKET_COUNT == c - start;
    }
  }

  ghost predicate Picked(info: map<int, Info>, n: int, i: Info, now: int) {
    n in info && !info[n].IsTerrible(now) && SameButPos(i, info[n])
  }

  /** The same peers, apart from their places in `random`. */
  ghost predicate SamePeers(info: map<int, Info>, info': map<int, Info>) {
    info'.Keys == info.Keys && forall n | n in info :: SameButPos(info'[n], info[n])
  }

  lemma SamePeersSelf(info: map<int, Info>)
    ensures SamePeers(info, info)
  {
  }

  lemma SamePeersTwice(info: map<int, Info>, info1: map<int, Info>, info2: map<int, Info>)
    requires SamePeers(info, info1) && SamePeers(info1, info2)
    ensures SamePeers(info, info2)
  {
    forall n | n in info ensures SameButPos(info2[n], info[n]) {
      assert SameButPos(info1[n], info[n]);
    }
  }

  /** The entries of the ids in `from` that are not terrible, each once. */
  ghost predicate Selected(info: map<int, Info>, from: seq<int>, ids: seq<int>, v: seq<Info>, now: int) {
    && |v| == |ids| && NoDuplicates(ids)
    && (forall k | 0 <= k < |ids| :: Picked(info, ids[k], v[k], now) && ids[k] in from)
    && (forall n | n in from :: n in info && (info[n].IsTerrible(now) || n in ids))
  }

  lemma SelectNone(info: map<int, Info>, now: int)
    ensures Selected(info, [], [], [], now)
  {
  }

  lemma SelectNext(info: map<int, Info>, from: seq<int>, ids: seq<int>, v: seq<Info>, now: int, n: int, i: Info, info': map<int, Info>)
    requires Selected(info, from, ids, v, now) && n !in from
    requires SamePeers(info, info') && n in info' && i == info'[n]
    ensures if i.IsTerrible(now) then Selected(info, from + [n], ids, v, now)
            else Selected(info, from + [n], ids + [n], v + [i], now)
  {
    hide Info.IsTerrible;
    SameVerdict(i, info[n], now);
    if i.IsTerrible(now) {
      ExtendFrom(info, from, ids, v, now, n);
    } else {
      var ids' := ids + [n];
      forall m | m in from + [n] ensures m in info && (info[m].IsTerrible(now) || m in ids') {
        assert m != n ==> m in from;
        assert ids'[|ids|] == n;
      }
    }
  }

  lemma ExtendFrom(info: map<int, Info>, from: seq<int>, ids: seq<int>, v: seq<Info>, now: int, n: int)
    requires Selected(info, from, ids, v, now) && n in info && info[n].IsTerrible(now)
    ensures Selected(info, from + [n], ids, v, now)
  {
    hide Info.IsTerrible;
    forall m | m in from + [n] ensures m in info && (info[m].IsTerrible(now) || m in ids) {
      assert m != n ==> m in from;
    }
  }

  lemma SelectedAll(salt: Salt, info: map<int, Info>, s: State, from: seq<int>, ids: seq<int>, v: seq<Info>, now: int)
    requires Selected(info, from, ids, v, now) && Inv(salt, s) && SamePeers(info, s.info)
    ensures |v| == |ids| && NoDuplicates(ids)
    ensures forall k | 0 <= k < |ids| :: Picked(info, ids[k], v[k], now)
    ensures from == s.random ==> forall n | n in info && !info[n].IsTerrible(now) :: n in ids
  {
    hide Inv, Info.IsTerrible, SameButPos;
    if from == s.random {
      forall n | n in info && !info[n].IsTerrible(now) ensures n in ids {
        RandomIsIndexed(salt, s);
        assert s.random[s.info[n].randomPos] == n;
      }
    }
  }

  lemma SwapOrder(s: State, n: int, k: int)
    requires 0 <= n <= k < |s.random| && s.random[n] in s.info && s.random[k] in s.info
    ensures |Swap(s, n, k).random| == |s.random| && Swap(s, n, k).random[..n] == s.random[..n]
  {
  }

  lemma NotBefore(salt: Salt, s: State, n: int)
    requires Inv(salt, s) && 0 <= n < |s.random|
    ensures s.random[n] in s.info && s.random[n] !in s.random[..n]
  {
    hide Inv;
    RandomIsIndexed(salt, s);
  }

  lemma SameVerdict(i: Info, j: Info, now: int)
    requires SameButPos(i, j)
    ensures i.IsTerrible(now) == j.IsTerrible(now)
  {
  }

  /** How many addresses one `getaddr` answer may hold. */
  function Limit(known: nat): nat {
    var nodes := 23 * known / 100;
    if nodes > 2500 then 2500 else nodes
  }

  lemma RandomIsIndexed(salt: Salt, s: State)
    requires Inv(salt, s)
    ensures forall k | 0 <= k < |s.random| :: s.random[k] in s.info && s.info[s.random[k]].randomPos == k
    ensures forall n | n in s.info :: 0 <= s.info[n].randomPos < |s.random| && s.random[s.info[n].randomPos] == n
  {
    forall n | n in s.info ensures 0 <= s.info[n].randomPos < |s.random| && s.random[s.info[n].randomPos] == n {
      assert InfoOk(s, n, {});
    }
  }

  // ---------------------------------------------------------------- the walks of Check_

  /** The tried entries and the counts of the new ones, without the entries still to be looked at. */
  ghost predicate Collected(info: map<int, Info>, todo: set<int>, setTried: set<int>, mapNew: map<int, int>) {
    && setTried == TriedIds(info) - todo
    && mapNew == Counts(info) - todo
  }

  lemma CollectNone(info: map<int, Info>)
    ensures Collected(info, info.Keys, {}, map[])
  {
  }

  lemma Collect(info: map<int, Info>, todo: set<int>, setTried: set<int>, mapNew: map<int, int>, n: int)
    requires Collected(info, todo, setTried, mapNew) && n in todo && n in info
    ensures if info[n].inTried then Collected(info, todo - {n}, setTried + {n}, mapNew)
            else Collected(info, todo - {n}, setTried, mapNew[n := info[n].refCount])
  {
  }

  lemma CollectedAll(info: map<int, Info>, setTried: set<int>, mapNew: map<int, int>)
    requires Collected(info, {}, setTried, mapNew)
    ensures setTried == TriedIds(info) && mapNew == Counts(info)
  {
  }

  /** An index to which only ids 0 were added. */
  ghost predicate Padded(addrs: map<NetAddr, int>, addrs': map<NetAddr, int>) {
    && (forall a | a in addrs :: a in addrs' && addrs'[a] == addrs[a])
    && (forall a | a in addrs' && a !in addrs :: addrs'[a] == 0)
  }

  lemma SamePass(s: State, t: State, n: int)
    requires n in s.info && t == s.(addrs := t.addrs) && Padded(s.addrs, t.addrs)
    ensures EntryPasses(s, n) <==> EntryPasses(t, n)
  {
  }

  ghost function Counts(info: map<int, Info>): map<int, int> {
    map n | n in info && !info[n].inTried :: info[n].refCount
  }

  ghost predicate SeenTried(s: State, n: int, b: int, i: int) {
    exists slot :: slot in s.tried && s.tried[slot] == n && Before(slot, b, i)
  }

  /** Where the walk over the tried table is: all slots so far are right, and `left` are the tried
      entries not met yet. */
  ghost predicate TriedWalk(salt: Salt, s: State, b: int, i: int, setTried: set<int>, left: set<int>) {
    && (forall slot | slot in s.tried && Before(slot, b, i) :: TriedSlotOk(salt, s, slot))
    && (forall n :: n in left <==> n in setTried && !SeenTried(s, n, b, i))
  }

  lemma TriedFails(salt: Salt, s: State, b: int, i: int, setTried: set<int>, left: set<int>)
    requires setTried == TriedIds(s.info) && TriedWalk(salt, s, b, i, setTried, left)
    requires (b, i) in s.tried && s.tried[(b, i)] !in left
    ensures !TriedSlotOk(salt, s, (b, i))
  {
    var n := s.tried[(b, i)];
    if n in setTried {
      assert SeenTried(s, n, b, i);
      var slot :| slot in s.tried && s.tried[slot] == n && Before(slot, b, i);
      assert TriedSlotOk(salt, s, slot);
    }
  }

  lemma TriedStep(salt: Salt, s: State, b: int, i: int, setTried: set<int>, left: set<int>)
    requires TriedWalk(salt, s, b, i, setTried, left)
    requires (b, i) in s.tried ==> TriedSlotOk(salt, s, (b, i))
    ensures TriedWalk(salt, s, b, i + 1, setTried, if (b, i) in s.tried then left - {s.tried[(b, i)]} else left)
  {
    forall slot | slot in s.tried && Before(slot, b, i + 1) ensures TriedSlotOk(salt, s, slot) {
      assert slot == (b, i) || Before(slot, b, i);
    }
    forall n ensures SeenTried(s, n, b, i + 1) <==> SeenTried(s, n, b, i) || ((b, i) in s.tried && s.tried[(b, i)] == n) {
      if SeenTried(s, n, b, i + 1) {
        var slot :| slot in s.tried && s.tried[slot] == n && Before(slot, b, i + 1);
        assert slot == (b, i) || Before(slot, b, i);
      }
      if SeenTried(s, n, b, i) {
        var slot :| slot in s.tried && s.tried[slot] == n && Before(slot, b, i);
        assert Before(slot, b, i + 1);
      }
      if (b, i) in s.tried && s.tried[(b, i)] == n {
        assert Before((b, i), b, i + 1);
      }
    }
  }

  lemma TriedRow(salt: Salt, s: State, b: int, setTried: set<int>, left: set<int>)
    requires TriedWalk(salt, s, b, BUCKET_SIZE, setTried, left)
    requires forall slot | slot in s.tried :: 0 <= slot.1 < BUCKET_SIZE
    ensures TriedWalk(salt, s, b + 1, 0, setTried, left)
  {
    forall slot | slot in s.tried ensures Before(slot, b, BUCKET_SIZE) <==> Before(slot, b + 1, 0) {
    }
    forall n ensures SeenTried(s, n, b, BUCKET_SIZE) <==> SeenTried(s, n, b + 1, 0) {
      if SeenTried(s, n, b + 1, 0) {
        var slot :| slot in s.tried && s.tried[slot] == n && Before(slot, b + 1, 0);
        assert Before(slot, b, BUCKET_SIZE);
      }
      if SeenTried(s, n, b, BUCKET_SIZE) {
        var slot :| slot in s.tried && s.tried[slot] == n && Before(slot, b, BUCKET_SIZE);
        assert Before(slot, b + 1, 0);
      }
    }
  }

  lemma TriedEnd(salt: Salt, s: State, setTried: set<int>, left: set<int>)
    requires TriedWalk(salt, s, TRIED_BUCKET_COUNT, 0, setTried, left)
    requires forall slot | slot in s.tried :: slot.0 < TRIED_BUCKET_COUNT
    ensures forall slot | slot in s.tried :: TriedSlotOk(salt, s, slot)
    ensures forall n :: n in left <==> n in setTried && !HasTriedSlot(s, n)
  {
    forall slot | slot in s.tried ensures TriedSlotOk(salt, s, slot) {
      assert Before(slot, TRIED_BUCKET_COUNT, 0);
    }
    forall n ensures SeenTried(s, n, TRIED_BUCKET_COUNT, 0) <==> HasTriedSlot(s, n) {
      if HasTriedSlot(s, n) {
        var slot :| slot in s.tried && s.tried[slot] == n;
        assert Before(slot, TRIED_BUCKET_COUNT, 0);
      }
    }
  }

  lemma Inhabited(ids: set<int>)
    requires ids != {}
    ensures exists n :: n in ids
  {
    var n := Element(ids);
  }

  // ---------------------------------------------------------------- the walk over the new table

  ghost predicate LeftOk(s: State, n: int, b: int, i: int, mapNew: map<int, int>, left: map<int, int>) {
    && (n in left ==> n in mapNew && left[n] > 0 && left[n] == mapNew[n] - |Seen(s, n, b, i)|)
    && (n in mapNew && n !in left ==> mapNew[n] == |Seen(s, n, b, i)|)
  }

  ghost predicate NewWalk(salt: Salt, s: State, b: int, i: int, mapNew: map<int, int>, left: map<int, int>) {
    && (forall slot | slot in s.unk && Before(slot, b, i) :: NewSlotPasses(salt, s, slot))
    && (forall n :: LeftOk(s, n, b, i, mapNew, left))
  }

  lemma NewStart(salt: Salt, s: State, mapNew: map<int, int>)
    requires forall n | n in mapNew :: mapNew[n] > 0
    requires forall slot | slot in s.unk :: 0 <= slot.0 && 0 <= slot.1
    ensures NewWalk(salt, s, 0, 0, mapNew, mapNew)
  {
    forall n ensures LeftOk(s, n, 0, 0, mapNew, mapNew) {
      assert Seen(s, n, 0, 0) == {};
    }
  }

  lemma NewFails(salt: Salt, s: State, b: int, i: int, mapNew: map<int, int>, left: map<int, int>)
    requires NewWalk(salt, s, b, i, mapNew, left) && mapNew == Counts(s.info)
    requires (b, i) in s.unk && s.unk[(b, i)] !in left
    ensures !(NewPass(salt, s) && RefsExact(s))
  {
    var n := s.unk[(b, i)];
    if n in mapNew {
      assert LeftOk(s, n, b, i, mapNew, left);
      SeenStep(s, n, b, i);
      assert IsNew(s.info, {}, n);
    } else {
      assert !NewSlotPasses(salt, s, (b, i));
    }
  }

  lemma NewMeets(salt: Salt, s: State, b: int, i: int, mapNew: map<int, int>, left: map<int, int>)
    requires NewWalk(salt, s, b, i, mapNew, left) && mapNew == Counts(s.info)
    requires (b, i) in s.unk && s.unk[(b, i)] in left
    ensures s.unk[(b, i)] in s.info && left[s.unk[(b, i)]] > 0
    ensures NewSlotPasses(salt, s, (b, i)) <==> s.info[s.unk[(b, i)]].BucketPosition(salt, true, b) == i
  {
    assert LeftOk(s, s.unk[(b, i)], b, i, mapNew, left);
  }

  lemma NewStep(salt: Salt, s: State, b: int, i: int, mapNew: map<int, int>, left: map<int, int>)
    requires NewWalk(salt, s, b, i, mapNew, left)
    requires (b, i) in s.unk && s.unk[(b, i)] in left && NewSlotPasses(salt, s, (b, i))
    ensures var n := s.unk[(b, i)];
            NewWalk(salt, s, b, i + 1, mapNew, if left[n] - 1 == 0 then left - {n} else left[n := left[n] - 1])
  {
    var n := s.unk[(b, i)];
    var left' := if left[n] - 1 == 0 then left - {n} else left[n := left[n] - 1];
    var j := i + 1;
    forall m ensures LeftOk(s, m, b, j, mapNew, left') {
      assert LeftOk(s, m, b, i, mapNew, left);
      SeenStep(s, m, b, i);
    }
    forall slot | slot in s.unk && Before(slot, b, i + 1) ensures NewSlotPasses(salt, s, slot) {
      assert slot == (b, i) || Before(slot, b, i);
    }
  }

  lemma NewSkip(salt: Salt, s: State, b: int, i: int, mapNew: map<int, int>, left: map<int, int>)
    requires NewWalk(salt, s, b, i, mapNew, left) && (b, i) !in s.unk
    ensures NewWalk(salt, s, b, i + 1, mapNew, left)
  {
    var j := i + 1;
    forall m ensures LeftOk(s, m, b, j, mapNew, left) {
      assert LeftOk(s, m, b, i, mapNew, left);
      SeenStep(s, m, b, i);
    }
    forall slot | slot in s.unk && Before(slot, b, i + 1) ensures NewSlotPasses(salt, s, slot) {
      assert slot == (b, i) || Before(slot, b, i);
    }
  }

  lemma NewRow(salt: Salt, s: State, b: int, mapNew: map<int, int>, left: map<int, int>)
    requires NewWalk(salt, s, b, BUCKET_SIZE, mapNew, left)
    requires forall slot | slot in s.unk :: 0 <= slot.1 < BUCKET_SIZE
    ensures NewWalk(salt, s, b + 1, 0, mapNew, left)
  {
    forall slot | slot in s.unk ensures Before(slot, b, BUCKET_SIZE) <==> Before(slot, b + 1, 0) {
    }
    var c := b + 1;
    forall n ensures LeftOk(s, n, c, 0, mapNew, left) {
      assert LeftOk(s, n, b, BUCKET_SIZE, mapNew, left);
      assert Seen(s, n, b, BUCKET_SIZE) == Seen(s, n, c, 0);
    }
  }

  lemma NewEnd(salt: Salt, s: State, mapNew: map<int, int>, left: map<int, int>)
    requires NewWalk(salt, s, NEW_BUCKET_COUNT, 0, mapNew, left)
    requires forall slot | slot in s.unk :: slot.0 < NEW_BUCKET_COUNT
    ensures forall slot | slot in s.unk :: NewSlotPasses(salt, s, slot)
    ensures forall n | n in mapNew :: |SlotsOf(s.unk, n)| <= mapNew[n]
    ensures forall n :: n in left <==> n in mapNew && |SlotsOf(s.unk, n)| < mapNew[n]
  {
    forall slot | slot in s.unk ensures NewSlotPasses(salt, s, slot) {
      assert Before(slot, NEW_BUCKET_COUNT, 0);
    }
    forall n ensures (n in left <==> n in mapNew && |SlotsOf(s.unk, n)| < mapNew[n]) && (n in mapNew ==> |SlotsOf(s.unk, n)| <= mapNew[n]) {
      assert LeftOk(s, n, NEW_BUCKET_COUNT, 0, mapNew, left);
      assert Seen(s, n, NEW_BUCKET_COUNT, 0) == SlotsOf(s.unk, n) by {
        forall slot | slot in SlotsOf(s.unk, n) ensures Before(slot, NEW_BUCKET_COUNT, 0) {
        }
      }
    }
  }

  lemma CountsArePositive(s: State, mapNew: map<int, int>)
    requires mapNew == Counts(s.info) && EntriesPass(s)
    ensures forall n | n in mapNew :: mapNew[n] > 0
    ensures |mapNew| == |NewIds(s.info, {})|
  {
    forall n | n in mapNew ensures mapNew[n] > 0 {
      assert EntryPasses(s, n);
    }
    assert mapNew.Keys == NewIds(s.info, {});
  }

  /** The tests on the tables do not depend on the address index. */
  lemma SameTables(salt: Salt, s: State, t: State)
    requires t == s.(addrs := t.addrs)
    ensures TriedPass(salt, s) == TriedPass(salt, t) && TriedFound(s) == TriedFound(t)
    ensures NewPass(salt, s) == NewPass(salt, t) && RefsExact(s) == RefsExact(t)
  {
    forall slot | slot in s.tried ensures TriedSlotOk(salt, s, slot) == TriedSlotOk(salt, t, slot) {
    }
    forall slot | slot in s.unk ensures NewSlotPasses(salt, s, slot) == NewSlotPasses(salt, t, slot) {
    }
    forall n ensures HasTriedSlot(s, n) == HasTriedSlot(t, n) {
    }
  }

  lemma IndexIsComplete(s: State)
    ensures Unchecked(s) ==> forall n | n in s.info :: s.info[n].addr in s.addrs
  {
  }

  lemma SomeUntried(s: State, left: set<int>)
    requires exists n :: n in left
    requires forall n :: n in left ==> n in TriedIds(s.info) && !HasTriedSlot(s, n)
    ensures !TriedFound(s)
  {
    var n :| n in left;
    assert IsTried(s.info, n);
  }

  lemma SomeUncounted(s: State, left: map<int, int>, mapNew: map<int, int>)
    requires left != map[] && mapNew == Counts(s.info)
    requires forall n :: n in left <==> n in mapNew && |SlotsOf(s.unk, n)| < mapNew[n]
    ensures !RefsExact(s)
  {
    assert left.Keys != {};
    Inhabited(left.Keys);
    var n :| n in left.Keys;
    assert IsNew(s.info, {}, n);
  }

  lemma AllCounted(s: State, left: map<int, int>, mapNew: map<int, int>)
    requires left == map[] && mapNew == Counts(s.info)
    requires forall n :: n in left <==> n in mapNew && |SlotsOf(s.unk, n)| < mapNew[n]
    requires forall n | n in mapNew :: |SlotsOf(s.unk, n)| <= mapNew[n]
    ensures RefsExact(s)
  {
    forall n | IsNew(s.info, {}, n) ensures s.info[n].refCount == |SlotsOf(s.unk, n)| {
      assert n in mapNew && n !in left;
    }
  }
}
