/** The public operations of the address manager as functions on its tables, with what each keeps
    and what each costs (src/addrman.cpp). */
module AddrOps {
  import opened Common
  import opened AddrState

  /** An announced address. `routable` says whether it is a public one. */
  datatype Address = Address(addr: NetAddr, port: int, time: int, services: set<nat>, routable: bool)

  /** `Find`. */
  predicate Known(s: State, a: NetAddr) {
    a in s.addrs && s.addrs[a] in s.info
  }

  function Find(s: State, a: NetAddr): int
    requires Known(s, a)
  {
    s.addrs[a]
  }

  lemma KnownIsIndexed(salt: Salt, s: State, a: NetAddr)
    requires Inv(salt, s)
    ensures Known(s, a) <==> a in s.addrs
    ensures Known(s, a) <==> exists n :: n in s.info && s.info[n].addr == a
    ensures Known(s, a) ==> s.info[Find(s, a)].addr == a
  {
    forall n | n in s.info && s.info[n].addr == a ensures Known(s, a) {
      assert InfoOk(s, n, {});
    }
    if Known(s, a) {
      assert Find(s, a) in s.info && s.info[Find(s, a)].addr == a;
    }
  }

  // ---------------------------------------------------------------- notes about a peer

  /** An operation that only notes something about the peer at exactly this service. */
  predicate Concerns(s: State, a: NetAddr, port: int) {
    Known(s, a) && s.info[Find(s, a)].SameService(a, port)
  }

  lemma ConcernsExactly(s: State, a: NetAddr, port: int)
    ensures Concerns(s, a, port) <==> a in s.addrs && s.addrs[a] in s.info && s.info[s.addrs[a]].addr == a && s.info[s.addrs[a]].port == port
  {
  }

  /** `Attempt_`. */
  function Attempt(s: State, a: NetAddr, port: int, countFailure: bool, time: int): State {
    if !Concerns(s, a, port) then s else
    var i := s.info[Find(s, a)];
    if countFailure && i.lastCountAttempt < s.lastGood then
      Note(s, Find(s, a), i.(lastTry := time, lastCountAttempt := time, attempts := i.attempts + 1))
    else
      Note(s, Find(s, a), i.(lastTry := time))
  }

  /** `Connected_`. */
  function Connected(s: State, a: NetAddr, port: int, time: int): State {
    if !Concerns(s, a, port) then s else
    var i := s.info[Find(s, a)];
    if time - i.time > 20 * 60 then Note(s, Find(s, a), i.(time := time)) else s
  }

  /** `SetServices_`. */
  function SetServices(s: State, a: NetAddr, port: int, services: set<nat>): State {
    if !Concerns(s, a, port) then s else
    Note(s, Find(s, a), s.info[Find(s, a)].(services := services))
  }

  lemma EntryBasics(salt: Salt, s: State, n: int)
    requires Inv(salt, s) && n in s.info
    ensures 0 <= n < s.idCount && s.info[n].addr in s.addrs && s.addrs[s.info[n].addr] == n
    ensures 0 <= s.info[n].lastTry && 0 <= s.info[n].lastSuccess && (s.info[n].inTried ==> s.info[n].lastSuccess != 0)
    ensures if s.info[n].inTried then s.info[n].refCount == 0 else 1 <= s.info[n].refCount <= NEW_BUCKETS_PER_ADDRESS
    ensures s.info[n].inTried ==> s.info[n].TriedSlot(salt) in s.tried && s.tried[s.info[n].TriedSlot(salt)] == n
  {
    assert InfoOk(s, n, {});
  }

  /** Only what is known about the peer at `a` differs: the tables, the indexes and every entry's place in
      them are the same. */
  ghost predicate OnlyNoted(s: State, t: State, a: NetAddr) {
    && t == s.(info := t.info) && t.info.Keys == s.info.Keys
    && (forall n | n in s.info :: SamePlace(s.info[n], t.info[n]))
    && (forall n | n in s.info && s.info[n].addr != a :: t.info[n] == s.info[n])
  }

  lemma NotesKeep(salt: Salt, s: State, a: NetAddr, port: int, countFailure: bool, time: int, services: set<nat>)
    requires Inv(salt, s) && 0 <= time
    ensures Inv(salt, Attempt(s, a, port, countFailure, time))
    ensures Inv(salt, Connected(s, a, port, time))
    ensures Inv(salt, SetServices(s, a, port, services))
    ensures OnlyNoted(s, Attempt(s, a, port, countFailure, time), a)
    ensures OnlyNoted(s, Connected(s, a, port, time), a)
    ensures OnlyNoted(s, SetServices(s, a, port, services), a)
  {
    hide Inv, Note, OnlyNoted;
    SameIsNoted(s, a);
    if Known(s, a) {
      var n := Find(s, a);
      var i := s.info[n];
      if Concerns(s, a, port) {
        EntryBasics(salt, s, n);
        OneNote(salt, s, a, i.(lastTry := time, lastCountAttempt := time, attempts := i.attempts + 1));
        OneNote(salt, s, a, i.(lastTry := time));
        OneNote(salt, s, a, i.(time := time));
        OneNote(salt, s, a, i.(services := services));
      }
    }
  }

  /** Everything but the fields that a note changes. */
  function Rest(i: Info): Info {
    i.(time := 0, services := {}, lastTry := 0, lastCountAttempt := 0, attempts := 0, lastSuccess := 0)
  }

  /** What the notes say afterwards, for the peer at exactly this service; for any other nothing changes. */
  lemma NotesSay(s: State, a: NetAddr, port: int, countFailure: bool, time: int, services: set<nat>)
    ensures !Concerns(s, a, port) ==>
              Attempt(s, a, port, countFailure, time) == s && Connected(s, a, port, time) == s && SetServices(s, a, port, services) == s
    ensures Concerns(s, a, port) ==>
              var n := Find(s, a);
              var i, t := s.info[n], Attempt(s, a, port, countFailure, time);
              var counted := countFailure && i.lastCountAttempt < s.lastGood;
              && n in t.info && t == s.(info := s.info[n := t.info[n]])
              && var j := t.info[n];
                 && j.lastTry == time && j.lastCountAttempt == (if counted then time else i.lastCountAttempt)
                 && j.attempts - i.attempts == (if counted then 1 else 0)
                 && j.time == i.time && j.services == i.services && j.lastSuccess == i.lastSuccess && Rest(j) == Rest(i)
    ensures Concerns(s, a, port) ==>
              var n := Find(s, a);
              var i, t := s.info[n], Connected(s, a, port, time);
              && n in t.info && t == s.(info := s.info[n := t.info[n]])
              && var j := t.info[n];
                 && j.time == (if i.time + 1200 < time then time else i.time) && j == i.(time := j.time)
    ensures Concerns(s, a, port) ==>
              var n := Find(s, a);
              var i, t := s.info[n], SetServices(s, a, port, services);
              && n in t.info && t == s.(info := s.info[n := t.info[n]])
              && var j := t.info[n];
                 && j.services == services && j == i.(services := j.services)
  {
    if Concerns(s, a, port) {
      var n := Find(s, a);
      assert s.info[n := s.info[n]] == s.info;
    }
  }

  lemma SameIsNoted(s: State, a: NetAddr)
    ensures OnlyNoted(s, s, a)
  {
  }

  lemma OneNote(salt: Salt, s: State, a: NetAddr, i: Info)
    requires Inv(salt, s) && Known(s, a) && s.info[Find(s, a)].addr == a && SamePlace(s.info[Find(s, a)], i)
    requires i.lastTry >= 0 && i.lastSuccess == s.info[Find(s, a)].lastSuccess
    ensures Inv(salt, Note(s, Find(s, a), i)) && OnlyNoted(s, Note(s, Find(s, a), i), a)
  {
    hide InvX;
    EntryBasics(salt, s, Find(s, a));
    NoteKeeps(salt, s, Find(s, a), i, {}, 0);
  }

  // ---------------------------------------------------------------- Good_

  function MarkGood(i: Info, time: int): Info {
    i.(lastSuccess := time, lastTry := time, attempts := 0)
  }

  /** `Good_`. Its exit for an entry that is in no bucket is not here: it is unreachable. */
  function Good(salt: Salt, s: State, a: NetAddr, port: int, time: int): State {
    var s0 := s.(lastGood := time);
    if !Concerns(s, a, port) then s0 else
    var n := Find(s, a);
    var s1 := Note(s0, n, MarkGood(s.info[n], time));
    if s.info[n].inTried then s1 else MakeTried(salt, s1, n)
  }

  lemma LastGoodIsFree(salt: Salt, s: State, time: int)
    requires Inv(salt, s)
    ensures Inv(salt, s.(lastGood := time))
  {
    var t := s.(lastGood := time);
    forall n | n in t.info ensures InfoOk(t, n, {}) {
      assert InfoOk(s, n, {});
    }
    TablesKept(salt, s, t);
  }

  lemma MarkGoodKeeps(salt: Salt, s: State, n: int, time: int)
    requires Inv(salt, s) && n in s.info && 0 < time
    ensures Inv(salt, Note(s.(lastGood := time), n, MarkGood(s.info[n], time)))
  {
    hide InvX;
    LastGoodIsFree(salt, s, time);
    NoteKeeps(salt, s.(lastGood := time), n, MarkGood(s.info[n], time), {}, 0);
  }

  lemma GoodKeeps(salt: Salt, s: State, a: NetAddr, port: int, time: int)
    requires Inv(salt, s) && 0 < time
    ensures Inv(salt, Good(salt, s, a, port, time))
  {
    hide Inv, MakeTried;
    LastGoodIsFree(salt, s, time);
    if Concerns(s, a, port) {
      var n := Find(s, a);
      MarkGoodKeeps(salt, s, n, time);
      if !s.info[n].inTried {
        MakeTriedKeeps(salt, Note(s.(lastGood := time), n, MarkGood(s.info[n], time)), n);
      }
    }
  }

  /** The peer reported good ends up tried, whoever else is affected: nobody becomes tried but this
      peer, nobody loses that state but the one in its slot, at most one peer is forgotten, and
      never this one. */
  lemma GoodEffect(salt: Salt, s: State, a: NetAddr, port: int, time: int)
    requires Inv(salt, s) && 0 < time && Concerns(s, a, port)
    ensures GoodDid(salt, s, Good(salt, s, a, port, time), Find(s, a), time)
    ensures var t := Good(salt, s, a, port, time);
            if s.info[Find(s, a)].inTried then t.unk == s.unk && t.info.Keys == s.info.Keys else Displaced(salt, s, t, Find(s, a))
  {
    hide GoodDid, Displaced, Inv;
    var n := Find(s, a);
    if s.info[n].inTried {
      GoodEffectTried(salt, s, n, time);
    } else {
      GoodEffectNew(salt, s, n, time);
      GoodTable(salt, s, n, time);
    }
  }

  lemma GoodTable(salt: Salt, s: State, n: int, time: int)
    requires Inv(salt, s) && 0 < time && n in s.info && !s.info[n].inTried
    ensures Displaced(salt, s, MakeTried(salt, Note(s.(lastGood := time), n, MarkGood(s.info[n], time)), n), n)
  {
    hide Inv, MakeTried, Info.TriedSlot, Info.NewSlot, WithoutRefs;
    var s1 := Note(s.(lastGood := time), n, MarkGood(s.info[n], time));
    MarkGoodKeeps(salt, s, n, time);
    SamePeerSameSlot(salt, s1.info[n], s.info[n]);
    MakeTriedTable(salt, s1, n);
    assert s1.info.Keys == s.info.Keys;
    var slot := s.info[n].TriedSlot(salt);
    if slot in s.tried {
      EvictedIsOther(salt, s, slot, n);
    }
  }

  lemma EvictedIsOther(salt: Salt, s: State, slot: Slot, n: int)
    requires Inv(salt, s) && slot in s.tried && n in s.info && !s.info[n].inTried
    ensures s.tried[slot] in s.info && s.tried[slot] != n
  {
    assert TriedSlotOk(salt, s, slot);
  }

  /** For any other peer only the time of the last success is kept. */
  lemma GoodForOther(salt: Salt, s: State, a: NetAddr, port: int, time: int)
    requires !Concerns(s, a, port)
    ensures var t := Good(salt, s, a, port, time); t.lastGood == time && t == s.(lastGood := t.lastGood)
  {
  }

  ghost predicate GoodDid(salt: Salt, s: State, t: State, n: int, time: int)
    requires n in s.info
  {
    var slot := s.info[n].TriedSlot(salt);
    && n in t.info && t.info[n].inTried && t.lastGood == time
    && t.info[n].lastSuccess == time && t.info[n].lastTry == time && t.info[n].attempts == 0
    && t.info[n].time == s.info[n].time && t.info[n].services == s.info[n].services
    && t.info[n].lastCountAttempt == s.info[n].lastCountAttempt && t.info[n].source == s.info[n].source
    && t.info[n].addr == s.info[n].addr && t.info[n].port == s.info[n].port
    && t.tried == s.tried[slot := n]
    && t.info.Keys <= s.info.Keys && |s.info.Keys - t.info.Keys| <= 1
    && (forall m | m in t.info && m != n :: t.info[m].Facts() == s.info[m].Facts())
    && (forall m | m in t.info && m != n ::
          t.info[m].inTried == (s.info[m].inTried && !(slot in s.tried && m == s.tried[slot])))
  }

  lemma GoodEffectTried(salt: Salt, s: State, n: int, time: int)
    requires Inv(salt, s) && n in s.info && s.info[n].inTried
    ensures GoodDid(salt, s, Note(s.(lastGood := time), n, MarkGood(s.info[n], time)), n, time)
  {
    hide Inv, Info.TriedSlot;
    EntryBasics(salt, s, n);
    var t := Note(s.(lastGood := time), n, MarkGood(s.info[n], time));
    assert t.info.Keys == s.info.Keys;
    assert s.info.Keys - s.info.Keys == {};
    assert s.tried[s.info[n].TriedSlot(salt) := n] == s.tried;
  }

  lemma GoodEffectNew(salt: Salt, s: State, n: int, time: int)
    requires Inv(salt, s) && 0 < time && n in s.info && !s.info[n].inTried
    ensures GoodDid(salt, s, MakeTried(salt, Note(s.(lastGood := time), n, MarkGood(s.info[n], time)), n), n, time)
  {
    hide Inv, MakeTried, Info.TriedSlot;
    var s1 := Note(s.(lastGood := time), n, MarkGood(s.info[n], time));
    MarkGoodKeeps(salt, s, n, time);
    SamePeerSameSlot(salt, s1.info[n], s.info[n]);
    MakeTriedFacts(salt, s1, n);
    assert s1.info.Keys == s.info.Keys;
  }

  // ---------------------------------------------------------------- Add_

  function Max(x: int, y: int): int {
    if x < y then y else x
  }

  /** The part of `Add_` that freshens a known entry. */
  function Refresh(i: Info, a: Address, penalty: int, now: int): Info {
    var interval := if now - a.time < 24 * 60 * 60 then 60 * 60 else 24 * 60 * 60;
    var j := if a.time != 0 && (i.time == 0 || i.time < a.time - interval - penalty)
             then i.(time := Max(0, a.time - penalty)) else i;
    j.(services := j.services + a.services)
  }

  /** The draw for one more reference is won once in `2^refCount` times. */
  ghost predicate Wins(s: State, a: NetAddr, coin: nat) {
    Known(s, a) ==> coin % Pow2(Max(0, s.info[Find(s, a)].refCount)) == 0
  }

  /** Whether a known entry may get one more reference; `lucky` is the outcome of the draw. */
  predicate MayGrow(i: Info, a: Address, lucky: bool) {
    && a.time != 0 && (i.time == 0 || a.time > i.time)
    && !i.inTried
    && i.refCount != NEW_BUCKETS_PER_ADDRESS
    && (i.refCount == 0 || lucky)
  }

  /** Whether the slot can be taken for `n`: it is free, or its entry is of no use, or that entry has
      other references while `n` has none. */
  predicate CanTake(s: State, n: int, slot: Slot, now: int)
    requires n in s.info
  {
    slot in s.unk && s.unk[slot] in s.info ==>
      var i := s.info[s.unk[slot]];
      i.IsTerrible(now) || (i.refCount > 1 && s.info[n].refCount == 0)
  }

  /** The end of `Add_`: give `n` a reference in its slot for `source`, or let it go. */
  function Place(salt: Salt, s: State, n: int, source: NetAddr, now: int): State
    requires n in s.info
  {
    var slot := s.info[n].NewSlot(salt, source);
    if slot in s.unk && s.unk[slot] == n then s
    else if CanTake(s, n, slot, now) then
      var t := ClearNew(s, slot);
      if n in t.info then PutNew(t, n, slot) else t
    else if s.info[n].refCount == 0 then Delete(s, n)
    else s
  }

  function NewInfo(a: Address, source: NetAddr, penalty: int): Info {
    Info(a.addr, a.port, Max(0, a.time - penalty), a.services, source, 0, 0, 0, 0, 0, false, 0)
  }

  function Enter(s: State, a: Address, source: NetAddr, penalty: int): State {
    var t := Create(s, NewInfo(a, source, penalty));
    t.(nNew := t.nNew + 1)
  }

  /** A source that announces itself pays no time penalty. */
  function Penalty(a: Address, source: NetAddr, penalty: int): int {
    if a.addr == source then 0 else penalty
  }

  /** `Add_`, with the tables it leaves and its return value. */
  function Add(salt: Salt, s: State, a: Address, source: NetAddr, penalty: int, now: int, lucky: bool): (State, bool) {
    if !a.routable then (s, false)
    else if Known(s, a.addr) then
      var n := Find(s, a.addr);
      var i := Refresh(s.info[n], a, Penalty(a, source, penalty), now);
      var s1 := Note(s, n, i);
      (if MayGrow(i, a, lucky) then Place(salt, s1, n, source, now) else s1, false)
    else
      var s1 := Enter(s, a, source, Penalty(a, source, penalty));
      (Place(salt, s1, s.idCount, source, now), true)
  }

  /** Placing works for an entry that has references, and for one that was just created: it is in
      limbo and counted already. */
  lemma PlaceKeeps(salt: Salt, s: State, n: int, source: NetAddr, now: int, limbo: set<int>)
    requires n in s.info && (limbo == {} || limbo == {n})
    requires InvX(salt, s, limbo, |limbo|)
    requires !s.info[n].inTried && s.info[n].refCount < NEW_BUCKETS_PER_ADDRESS
    requires s.info[n].refCount == 0 <==> n in limbo
    ensures Inv(salt, Place(salt, s, n, source, now))
  {
    hide InvX, Info.NewSlot, Info.BucketPosition;
    var slot := s.info[n].NewSlot(salt, source);
    NewSlotIsCanonical(salt, s.info[n], source);
    if slot in s.unk && s.unk[slot] == n {
      ClearNewKeeps(salt, s, slot, limbo, |limbo|);
    } else if CanTake(s, n, slot, now) {
      ClearNewKeeps(salt, s, slot, limbo, |limbo|);
      ClearNewFacts(s, slot);
      var t := ClearNew(s, slot);
      SamePeerSamePosition(salt, t.info[n], s.info[n], slot.0);
      PutNewKeeps(salt, t, n, slot, limbo, |limbo|);
      assert {n} - {n} == {};
    } else if n in limbo {
      DeleteKeeps(salt, s, n, limbo, |limbo|);
      assert {n} - {n} == {};
    }
  }

  lemma NewSlotIsCanonical(salt: Salt, i: Info, source: NetAddr)
    ensures var slot := i.NewSlot(salt, source);
            0 <= slot.0 < NEW_BUCKET_COUNT && slot.1 == i.BucketPosition(salt, true, slot.0)
  {
  }

  lemma SamePeerSamePosition(salt: Salt, i: Info, j: Info, b: int)
    requires i.addr == j.addr && i.port == j.port
    ensures i.BucketPosition(salt, true, b) == j.BucketPosition(salt, true, b)
  {
  }

  lemma AddKnownKeeps(salt: Salt, s: State, a: Address, source: NetAddr, penalty: int, now: int, lucky: bool)
    requires Inv(salt, s) && a.routable && Known(s, a.addr)
    ensures Inv(salt, Add(salt, s, a, source, penalty, now, lucky).0)
  {
    hide InvX, Place;
    var n := Find(s, a.addr);
    EntryBasics(salt, s, n);
    var i := Refresh(s.info[n], a, Penalty(a, source, penalty), now);
    NoteKeeps(salt, s, n, i, {}, 0);
    if MayGrow(i, a, lucky) {
      PlaceKeeps(salt, Note(s, n, i), n, source, now, {});
    }
  }

  lemma EnterKeeps(salt: Salt, s: State, a: Address, source: NetAddr, penalty: int)
    requires Inv(salt, s) && a.addr !in s.addrs
    ensures InvX(salt, Enter(s, a, source, penalty), {s.idCount}, 1)
    ensures s.idCount !in s.info && 0 <= s.idCount
  {
    assert 0 <= s.idCount;
    hide InvX;
    CreateKeeps(salt, s, NewInfo(a, source, penalty), {}, 0);
    assert {} + {s.idCount} == {s.idCount};
    CreditMoves(salt, Create(s, NewInfo(a, source, penalty)), {s.idCount}, 0, 1);
  }

  /** An address that is not routable is ignored. */
  lemma AddIgnores(salt: Salt, s: State, a: Address, source: NetAddr, penalty: int, now: int, lucky: bool)
    requires !a.routable
    ensures Add(salt, s, a, source, penalty, now, lucky) == (s, false)
  {
  }

  /** Every announcement, routable or not, known or not, keeps the invariant. */
  lemma AddKeeps(salt: Salt, s: State, a: Address, source: NetAddr, penalty: int, now: int, lucky: bool)
    requires Inv(salt, s)
    ensures Inv(salt, Add(salt, s, a, source, penalty, now, lucky).0)
  {
    KnownIsIndexed(salt, s, a.addr);
    hide InvX, Inv, Place;
    if a.routable {
      if Known(s, a.addr) {
        AddKnownKeeps(salt, s, a, source, penalty, now, lucky);
      } else {
        EnterKeeps(salt, s, a, source, Penalty(a, source, penalty));
        PlaceKeeps(salt, Enter(s, a, source, Penalty(a, source, penalty)), s.idCount, source, now, {s.idCount});
      }
    }
  }

  /** What placing an entry costs: the entry itself when it was in limbo and its slot cannot be taken,
      else at most the entry in the slot. */
  lemma PlaceFacts(salt: Salt, s: State, n: int, source: NetAddr, now: int, limbo: set<int>)
    requires n in s.info && (limbo == {} || limbo == {n})
    requires InvX(salt, s, limbo, |limbo|)
    requires s.info[n].refCount == 0 <==> n in limbo
    ensures var t, slot := Place(salt, s, n, source, now), s.info[n].NewSlot(salt, source);
            && (n in t.info <==> limbo == {} || CanTake(s, n, slot, now))
            && t.info.Keys <= s.info.Keys
            && s.info.Keys - t.info.Keys - {n} <= Victim(s, slot) - {n}
            && (forall m | m in t.info :: t.info[m].Facts() == s.info[m].Facts())
  {
    hide InvX, Info.NewSlot;
    var slot := s.info[n].NewSlot(salt, source);
    ClearNewKeeps(salt, s, slot, limbo, |limbo|);
    if slot in s.unk && s.unk[slot] == n {
    } else if CanTake(s, n, slot, now) {
      ClearNewFacts(s, slot);
    } else if s.info[n].refCount == 0 {
      DeleteKeeps(salt, s, n, limbo, |limbo|);
      DeleteFacts(s, n);
    }
  }

  /** What placing does: entry `n` gets a reference in its slot if it has none there and the slot can be taken;
      then only the entry in the slot loses one, and is forgotten with its last. An entry in limbo that
      cannot be placed is forgotten. */
  ghost predicate Placed(s: State, t: State, n: int, slot: Slot, limbo: bool, take: bool)
    requires n in s.info
  {
    && t.tried == s.tried && t.lastGood == s.lastGood && t.idCount == s.idCount
    && if slot in s.unk && s.unk[slot] == n then t == s
       else if take then
         && t.unk == s.unk[slot := n] && t.info.Keys == s.info.Keys - Victim(s, slot) && n in t.info
         && SameButPos(t.info[n], s.info[n].(refCount := s.info[n].refCount + 1))
         && (forall m | m in s.info && m != n && !(slot in s.unk && m == s.unk[slot]) :: m in t.info && SameButPos(t.info[m], s.info[m]))
         && (slot in s.unk && s.unk[slot] in t.info && s.unk[slot] in s.info ==>
               SameButPos(t.info[s.unk[slot]], s.info[s.unk[slot]].(refCount := s.info[s.unk[slot]].refCount - 1)))
       else if limbo then
         t.unk == s.unk && t.info.Keys == s.info.Keys - {n} && forall m | m in t.info :: SameButPos(t.info[m], s.info[m])
       else t == s
  }

  lemma PlaceExactly(salt: Salt, s: State, n: int, source: NetAddr, now: int, limbo: set<int>)
    requires n in s.info && (limbo == {} || limbo == {n})
    requires InvX(salt, s, limbo, |limbo|)
    requires s.info[n].refCount == 0 <==> n in limbo
    ensures var slot := s.info[n].NewSlot(salt, source);
            Placed(s, Place(salt, s, n, source, now), n, slot, n in limbo, CanTake(s, n, slot, now))
  {
    hide InvX, Info.NewSlot, Info.IsTerrible, ClearNew, Delete;
    var slot := s.info[n].NewSlot(salt, source);
    ClearNewKeeps(salt, s, slot, limbo, |limbo|);
    if slot in s.unk && s.unk[slot] == n {
    } else if CanTake(s, n, slot, now) {
      TakeExactly(s, n, slot);
    } else if s.info[n].refCount == 0 {
      DeleteKeeps(salt, s, n, limbo, |limbo|);
      DeleteFacts(s, n);
    }
  }

  lemma TakeExactly(s: State, n: int, slot: Slot)
    requires n in s.info && (slot in s.unk ==> s.unk[slot] in s.info && s.unk[slot] != n)
    requires slot in s.unk && s.info[s.unk[slot]].refCount == 1 ==> CanDelete(DropSlot(s, slot), s.unk[slot])
    ensures n in ClearNew(s, slot).info && Placed(s, PutNew(ClearNew(s, slot), n, slot), n, slot, false, true)
    ensures Placed(s, PutNew(ClearNew(s, slot), n, slot), n, slot, true, true)
  {
    hide ClearNew, CanDelete, DropSlot;
    ClearNewFacts(s, slot);
    assert (s.unk - {slot})[slot := n] == s.unk[slot := n];
  }

  /** An address that was not known is answered with `true` in every case, but it is remembered
      exactly when its slot is free or the entry there can give way. */
  lemma AddRemembers(salt: Salt, s: State, a: Address, source: NetAddr, penalty: int, now: int, lucky: bool)
    requires Inv(salt, s) && a.routable && !Known(s, a.addr)
    ensures Add(salt, s, a, source, penalty, now, lucky).1
    ensures var slot := NewInfo(a, source, 0).NewSlot(salt, source);
            Known(Add(salt, s, a, source, penalty, now, lucky).0, a.addr) <==>
            (slot in s.unk && s.unk[slot] in s.info ==>
               s.info[s.unk[slot]].IsTerrible(now) || s.info[s.unk[slot]].refCount > 1)
  {
    KnownIsIndexed(salt, s, a.addr);
    var n, p := s.idCount, Penalty(a, source, penalty);
    EnterKeeps(salt, s, a, source, p);
    var s1 := Enter(s, a, source, p);
    PlaceFacts(salt, s1, n, source, now, {n});
    PlaceKeeps(salt, s1, n, source, now, {n});
    hide InvX, Inv, Place, Info.NewSlot;
    var t := Place(salt, s1, n, source, now);
    KnownIsIndexed(salt, t, a.addr);
    SamePeerSameNewSlot(salt, s1.info[n], NewInfo(a, source, 0), source);
    if n in t.info {
      assert t.info[n].Facts().addr == a.addr;
    }
    SlotsAreOld(salt, s, s1.info[n].NewSlot(salt, source));
  }

  /** A known address that is announced again. Its services become the union; its time is freshened when the
      announcement is newer by more than the interval and the penalty; nothing else that is known about it
      changes. It gets one more reference, in its slot for the source, if the announcement is newer, the entry is
      new with less than 8 references, the draw is won, and the slot is free or its entry terrible. */
  ghost predicate Announced(salt: Salt, s: State, t: State, n: int, a: Address, source: NetAddr, penalty: int, now: int, lucky: bool)
    requires n in s.info
  {
    var i, slot := s.info[n], s.info[n].NewSlot(salt, source);
    var interval := if now - a.time >= 86400 then 86400 else 3600;
    && n in t.info
    && var j := t.info[n];
       && j.services == i.services + a.services
       && (if a.time != 0 && (i.time == 0 || a.time - i.time > interval + penalty)
           then j.time == (if a.time < penalty then 0 else a.time - penalty) else j.time == i.time)
       && j.addr == i.addr && j.port == i.port && j.source == i.source && j.inTried == i.inTried
       && j.lastTry == i.lastTry && j.lastCountAttempt == i.lastCountAttempt && j.lastSuccess == i.lastSuccess && j.attempts == i.attempts
       && t.tried == s.tried && t.lastGood == s.lastGood && t.idCount == s.idCount
       && if && a.time != 0 && (j.time == 0 || j.time < a.time) && !i.inTried && i.refCount < 8 && lucky
             && (slot !in s.unk || (s.unk[slot] != n && s.unk[slot] in s.info && s.info[s.unk[slot]].IsTerrible(now)))
          then j.refCount == i.refCount + 1 && t.unk == s.unk[slot := n] && OnlySlotSuffers(s, t, n, slot)
          else j.refCount == i.refCount && t.unk == s.unk && t.info == s.info[n := j]
  }

  /** Of all entries but `n` only the one in the slot is affected: it loses a reference, and is forgotten if
      that was its last. */
  ghost predicate OnlySlotSuffers(s: State, t: State, n: int, slot: Slot) {
    && t.info.Keys - {n} <= s.info.Keys
    && forall m | m in s.info && m != n ::
         if slot in s.unk && m == s.unk[slot] then
           (m in t.info <==> s.info[m].refCount != 1) && (m in t.info ==> SameButPos(t.info[m], s.info[m].(refCount := s.info[m].refCount - 1)))
         else m in t.info && SameButPos(t.info[m], s.info[m])
  }

  lemma AnnouncedAgain(salt: Salt, s: State, a: Address, source: NetAddr, penalty: int, now: int, lucky: bool)
    requires Inv(salt, s) && a.routable && Known(s, a.addr)
    ensures !Add(salt, s, a, source, penalty, now, lucky).1
    ensures Announced(salt, s, Add(salt, s, a, source, penalty, now, lucky).0, Find(s, a.addr), a, source,
                      if a.addr == source then 0 else penalty, now, lucky)
  {
    hide InvX, Place, Info.NewSlot, Info.IsTerrible, Placed;
    var n, p := Find(s, a.addr), Penalty(a, source, penalty);
    EntryBasics(salt, s, n);
    var i := Refresh(s.info[n], a, p, now);
    NoteKeeps(salt, s, n, i, {}, 0);
    var s1 := Note(s, n, i);
    SamePeerSameNewSlot(salt, i, s.info[n], source);
    if MayGrow(i, a, lucky) {
      PlaceExactly(salt, s1, n, source, now, {});
      SlotsAreOld(salt, s, s.info[n].NewSlot(salt, source));
      PlacedIsAnnounced(salt, s, s1, Place(salt, s1, n, source, now), n, i, a, source, p, now);
    }
  }

  lemma PlacedIsAnnounced(salt: Salt, s: State, s1: State, t: State, n: int, i: Info, a: Address, source: NetAddr, p: int, now: int)
    requires n in s.info && s1 == Note(s, n, i) && i == Refresh(s.info[n], a, p, now) && i.refCount > 0 && MayGrow(i, a, true)
    requires i.refCount <= 8
    requires var slot := s.info[n].NewSlot(salt, source);
             (slot in s.unk ==> s.unk[slot] in s.info) && Placed(s1, t, n, slot, false, CanTake(s1, n, slot, now))
    ensures Announced(salt, s, t, n, a, source, p, now, true)
  {
    hide Info.NewSlot, Info.IsTerrible;
    var slot := s.info[n].NewSlot(salt, source);
    assert s1.info.Keys == s.info.Keys;
  }

  /** An address that is announced for the first time: what is entered for it, where, and at whose cost. */
  ghost predicate Entered(s: State, t: State, a: Address, source: NetAddr, penalty: int, now: int, slot: Slot) {
    var n := s.idCount;
    && t.tried == s.tried && t.lastGood == s.lastGood && t.idCount == n + 1
    && if slot in s.unk && s.unk[slot] in s.info && !s.info[s.unk[slot]].IsTerrible(now) && s.info[s.unk[slot]].refCount <= 1
       then t.unk == s.unk && t.info.Keys == s.info.Keys && forall m | m in s.info :: SameButPos(t.info[m], s.info[m])
       else
         && n in t.info && t.unk == s.unk[slot := n] && OnlySlotSuffers(s, t, n, slot)
         && var j := t.info[n];
            && j.addr == a.addr && j.port == a.port && j.services == a.services && j.source == source
            && j.time == (if a.time < penalty then 0 else a.time - penalty)
            && j.lastTry == 0 && j.lastCountAttempt == 0 && j.lastSuccess == 0 && j.attempts == 0
            && j.refCount == 1 && !j.inTried
  }

  lemma AnnouncedFirst(salt: Salt, s: State, a: Address, source: NetAddr, penalty: int, now: int, lucky: bool)
    requires Inv(salt, s) && a.routable && !Known(s, a.addr)
    ensures Entered(s, Add(salt, s, a, source, penalty, now, lucky).0, a, source, if a.addr == source then 0 else penalty, now,
                    NewInfo(a, source, 0).NewSlot(salt, source))
  {
    KnownIsIndexed(salt, s, a.addr);
    hide InvX, Inv, Place, Info.NewSlot, Info.IsTerrible, Placed, Entered;
    var n, p := s.idCount, Penalty(a, source, penalty);
    EnterKeeps(salt, s, a, source, p);
    var s1 := Enter(s, a, source, p);
    PlaceExactly(salt, s1, n, source, now, {n});
    SamePeerSameNewSlot(salt, s1.info[n], NewInfo(a, source, 0), source);
    var slot := s1.info[n].NewSlot(salt, source);
    SlotsAreOld(salt, s, slot);
    PlacedIsEntered(s, s1, Place(salt, s1, n, source, now), a, source, p, now, slot);
  }

  lemma PlacedIsEntered(s: State, s1: State, t: State, a: Address, source: NetAddr, p: int, now: int, slot: Slot)
    requires s.idCount !in s.info && s1 == Enter(s, a, source, p) && (slot in s.unk ==> s.unk[slot] in s.info)
    requires Placed(s1, t, s.idCount, slot, true, CanTake(s1, s.idCount, slot, now))
    ensures Entered(s, t, a, source, p, now, slot)
  {
    hide Info.IsTerrible;
    assert s1.info.Keys == s.info.Keys + {s.idCount};
  }

  lemma SlotsAreOld(salt: Salt, s: State, slot: Slot)
    requires Inv(salt, s)
    ensures slot in s.unk ==> s.unk[slot] in s.info
  {
    if slot in s.unk {
      assert NewSlotOk(salt, s, slot);
    }
  }

  /** What `Clear` leaves. */
  const EMPTY := State(0, map[], map[], [], 0, map[], 0, map[], 1)

  lemma EmptyIsConsistent(salt: Salt)
    ensures Inv(salt, EMPTY)
  {
    assert TriedIds(map[]) == {} && NewIds(map[], {}) == {};
  }

  // ---------------------------------------------------------------- Check_

  /** What `Check_` tests of one entry. Looking up an address that the index does not have yields
      the id 0, as the original's map does. */
  ghost predicate EntryPasses(s: State, n: int)
    requires n in s.info
  {
    var i := s.info[n];
    && (if i.inTried then i.lastSuccess != 0 && i.refCount == 0 else 1 <= i.refCount <= NEW_BUCKETS_PER_ADDRESS)
    && (if i.addr in s.addrs then s.addrs[i.addr] else 0) == n
    && 0 <= i.randomPos < |s.random| && s.random[i.randomPos] == n
    && 0 <= i.lastTry && 0 <= i.lastSuccess
  }

  ghost predicate NewSlotPasses(salt: Salt, s: State, slot: Slot)
    requires slot in s.unk
  {
    var n := s.unk[slot];
    n in s.info && !s.info[n].inTried && slot.1 == s.info[n].BucketPosition(salt, true, slot.0)
  }

  ghost predicate EntriesPass(s: State) {
    forall n | n in s.info :: EntryPasses(s, n)
  }

  ghost predicate TriedPass(salt: Salt, s: State) {
    forall slot | slot in s.tried :: TriedSlotOk(salt, s, slot)
  }

  ghost predicate TriedFound(s: State) {
    forall n | IsTried(s.info, n) :: HasTriedSlot(s, n)
  }

  ghost predicate NewPass(salt: Salt, s: State) {
    forall slot | slot in s.unk :: NewSlotPasses(salt, s, slot)
  }

  ghost predicate RefsExact(s: State) {
    forall n | IsNew(s.info, {}, n) :: s.info[n].refCount == |SlotsOf(s.unk, n)|
  }

  /** `Check_` returns 0. */
  ghost predicate CheckPasses(salt: Salt, s: State) {
    && |s.random| == s.nTried + s.nNew
    && EntriesPass(s)
    && s.nTried == |TriedIds(s.info)|
    && s.nNew == |NewIds(s.info, {})|
    && TriedPass(salt, s) && TriedFound(s)
    && NewPass(salt, s) && RefsExact(s)
  }

  ghost predicate HasTriedSlot(s: State, n: int) {
    exists slot :: slot in s.tried && s.tried[slot] == n
  }

  /** What the invariant has that `Check_` does not test: ids stay below the counter, and the two
      indexes hold nothing but the entries. */
  ghost predicate Unchecked(s: State) {
    && 0 <= s.idCount
    && (forall n | n in s.info :: 0 <= n < s.idCount && s.info[n].addr in s.addrs)
    && (forall slot | slot in s.unk :: 0 <= slot.0 < NEW_BUCKET_COUNT)
    && IndexesOk(s)
  }

  lemma InvPassesCheck(salt: Salt, s: State)
    requires Inv(salt, s)
    ensures CheckPasses(salt, s) && Unchecked(s)
  {
    RandomHasAll(salt, s, {}, 0);
    forall n | n in s.info ensures EntryPasses(s, n) && 0 <= n < s.idCount && s.info[n].addr in s.addrs {
      assert InfoOk(s, n, {});
    }
    forall slot | slot in s.unk ensures NewSlotPasses(salt, s, slot) && 0 <= slot.0 < NEW_BUCKET_COUNT {
      assert NewSlotOk(salt, s, slot);
    }
    forall n | IsTried(s.info, n) ensures HasTriedSlot(s, n) {
      assert s.tried[s.info[n].TriedSlot(salt)] == n;
    }
  }

  lemma CheckGivesInfos(salt: Salt, s: State)
    requires CheckPasses(salt, s) && Unchecked(s)
    ensures InfosOk(salt, s, {})
  {
    forall n | n in s.info ensures InfoOk(s, n, {}) && s.info[n].refCount == |SlotsOf(s.unk, n)| {
      assert EntryPasses(s, n);
      if s.info[n].inTried {
        forall slot | slot in s.unk ensures s.unk[slot] != n {
          assert NewSlotPasses(salt, s, slot);
        }
        assert SlotsOf(s.unk, n) == {};
      } else {
        assert IsNew(s.info, {}, n);
      }
    }
    forall n | n in s.info && s.info[n].inTried
      ensures s.info[n].TriedSlot(salt) in s.tried && s.tried[s.info[n].TriedSlot(salt)] == n
    {
      assert IsTried(s.info, n) && HasTriedSlot(s, n);
      var slot :| slot in s.tried && s.tried[slot] == n;
      assert TriedSlotOk(salt, s, slot);
    }
  }

  lemma CheckGivesTables(salt: Salt, s: State)
    requires CheckPasses(salt, s) && Unchecked(s)
    ensures TablesOk(salt, s)
  {
    forall slot | slot in s.unk ensures NewSlotOk(salt, s, slot) {
      assert NewSlotPasses(salt, s, slot);
    }
  }

  /** The invariant is exactly what `Check_` accepts, apart from the part it does not look at. */
  lemma CheckIsTheInvariant(salt: Salt, s: State)
    ensures Inv(salt, s) <==> CheckPasses(salt, s) && Unchecked(s)
  {
    if Inv(salt, s) {
      InvPassesCheck(salt, s);
    }
    if CheckPasses(salt, s) && Unchecked(s) {
      CheckGivesInfos(salt, s);
      CheckGivesTables(salt, s);
    }
  }

  // ---------------------------------------------------------------- runs

  /** The public calls, with the outcomes of their random draws. `Shuffle` is one round of `GetAddr_`. */
  datatype Call =
    | CallAdd(a: Address, source: NetAddr, penalty: int, now: int, lucky: bool)
    | CallGood(addr: NetAddr, port: int, time: int)
    | CallAttempt(addr: NetAddr, port: int, countFailure: bool, time: int)
    | CallConnected(addr: NetAddr, port: int, time: int)
    | CallSetServices(addr: NetAddr, port: int, services: set<nat>)
    | Shuffle(j: nat, k: nat)

  /** Clock values are positive. */
  predicate TimeOk(c: Call) {
    match c
    case CallGood(_, _, time) => 0 < time
    case CallAttempt(_, _, _, time) => 0 < time
    case CallConnected(_, _, time) => 0 < time
    case _ => true
  }

  function Do(salt: Salt, s: State, c: Call): State {
    match c
    case CallAdd(a, source, penalty, now, lucky) => Add(salt, s, a, source, penalty, now, lucky).0
    case CallGood(addr, port, time) => Good(salt, s, addr, port, time)
    case CallAttempt(addr, port, countFailure, time) => Attempt(s, addr, port, countFailure, time)
    case CallConnected(addr, port, time) => Connected(s, addr, port, time)
    case CallSetServices(addr, port, services) => SetServices(s, addr, port, services)
    case Shuffle(j, k) =>
      if j < |s.random| && k < |s.random| && s.random[j] in s.info && s.random[k] in s.info then Swap(s, j, k) else s
  }

  function DoAll(salt: Salt, s: State, calls: seq<Call>): State
    decreases |calls|
  {
    if calls == [] then s else Do(salt, DoAll(salt, s, calls[..|calls| - 1]), calls[|calls| - 1])
  }

  /** Whatever is called, in any order and with any outcome of the draws, an address manager that
      started empty passes `Check_` after every call. */
  lemma {:induction false} EveryRunPassesCheck(salt: Salt, calls: seq<Call>)
    requires forall c | c in calls :: TimeOk(c)
    ensures Inv(salt, DoAll(salt, EMPTY, calls)) && CheckPasses(salt, DoAll(salt, EMPTY, calls))
    decreases |calls|
  {
    hide Inv, CheckPasses, Add, Good, Attempt, Connected, SetServices, Swap, Unchecked;
    if calls == [] {
      EmptyIsConsistent(salt);
    } else {
      var s, c := DoAll(salt, EMPTY, calls[..|calls| - 1]), calls[|calls| - 1];
      EveryRunPassesCheck(salt, calls[..|calls| - 1]);
      assert TimeOk(c);
      CallKeeps(salt, s, c);
    }
    CheckIsTheInvariant(salt, DoAll(salt, EMPTY, calls));
  }

  lemma CallKeeps(salt: Salt, s: State, c: Call)
    requires Inv(salt, s) && TimeOk(c)
    ensures Inv(salt, Do(salt, s, c))
  {
    hide InvX, Add, Good, Attempt, Connected, SetServices;
    match c {
      case CallAdd(a, source, penalty, now, lucky) => AddKeeps(salt, s, a, source, penalty, now, lucky);
      case CallGood(addr, port, time) => GoodKeeps(salt, s, addr, port, time);
      case CallAttempt(addr, port, countFailure, time) => NotesKeep(salt, s, addr, port, countFailure, time, {});
      case CallConnected(addr, port, time) => NotesKeep(salt, s, addr, port, false, time, {});
      case CallSetServices(addr, port, services) => NotesKeep(salt, s, addr, port, false, 0, services);
      case Shuffle(j, k) =>
        if j < |s.random| && k < |s.random| {
          SwapKeeps(salt, s, j, k, {}, 0);
        }
    }
  }

  /** Two addresses that hash to the same slot: the second is answered with `true` and forgotten. */
  lemma AddTrueButForgotten()
    ensures var salt := Salt((_, _, _, _) => 0, _ => 0);
            var first := Address(1, 8767, 1000000, {}, true);
            var second := Address(2, 8767, 1000000, {}, true);
            var s := Add(salt, EMPTY, first, 9, 0, 1000000, true).0;
            Add(salt, s, second, 9, 0, 1000000, true).1 && !Known(Add(salt, s, second, 9, 0, 1000000, true).0, 2)
  {
    hide Inv, Add;
    var salt := Salt((_, _, _, _) => 0, _ => 0);
    var first := Address(1, 8767, 1000000, {}, true);
    var second := Address(2, 8767, 1000000, {}, true);
    EmptyIsConsistent(salt);
    AddKeeps(salt, EMPTY, first, 9, 0, 1000000, true);
    var s := Add(salt, EMPTY, first, 9, 0, 1000000, true).0;
    FirstIsAdded(salt, first, s);
    AddRemembers(salt, s, second, 9, 0, 1000000, true);
  }

  lemma HashIsZero(salt: Salt, t: int, x: int, y: int, z: int)
    requires forall t, x, y, z :: salt.hash(t, x, y, z) == 0
    ensures salt.hash(t, x, y, z) == 0
  {
  }

  lemma ZeroSlot(salt: Salt, i: Info, source: NetAddr)
    requires forall t, x, y, z :: salt.hash(t, x, y, z) == 0
    ensures i.NewSlot(salt, source) == (0, 0)
  {
    HashIsZero(salt, 2, salt.group(i.addr), salt.group(source), 0);
    HashIsZero(salt, 3, salt.group(source), 0, 0);
    HashIsZero(salt, 'N' as int, 0, i.addr, i.port);
  }

  lemma FirstIsAdded(salt: Salt, a: Address, s: State)
    requires (forall t, x, y, z :: salt.hash(t, x, y, z) == 0) && a == Address(1, 8767, 1000000, {}, true)
    requires s == Add(salt, EMPTY, a, 9, 0, 1000000, true).0
    ensures s.unk == map[(0, 0) := 0] && 0 in s.info && 2 !in s.addrs
    ensures s.info[0].refCount == 1 && s.info[0].time == 1000000 && s.info[0].attempts == 0
  {
    hide Info.IsTerrible;
    var t := Enter(EMPTY, a, 9, 0);
    ZeroSlot(salt, t.info[0], 9);
    assert s == Place(salt, t, 0, 9, 1000000);
  }
}
