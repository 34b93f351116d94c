/** Compact block relay (src/blockencodings.cpp, BIP 152): filling the slots of a block from prefilled
    transactions, the memory pool and extra transactions, and rebuilding it. */
module CompactBlocks {
  import opened Common
  import opened CompactCoding

  datatype Tx = Tx(id: nat, witnessId: nat, isNull: bool)

  type Index16 = x: nat | x <= 0xffff

  datatype Prefilled = Prefilled(index: Index16, tx: Tx)

  /** `CBlockHeaderAndShortTxIDs` as received. */
  datatype Message = Message(headerNull: bool, shortIds: seq<nat>, prefilled: seq<Prefilled>)

  /** The keyed short id of a witness hash. */
  type ShortId = nat -> nat

  type Slots = seq<Option<Tx>>

  // ---------------------------------------------------------------- empty slots

  function Nones(a: Slots): nat {
    if a == [] then 0 else Nones(a[..|a| - 1]) + if a[|a| - 1].None? then 1 else 0
  }

  lemma NonesNext(a: Slots, k: nat)
    requires k < |a|
    ensures Nones(a[..k + 1]) == Nones(a[..k]) + if a[k].None? then 1 else 0
  {
    assert a[..k + 1][..k] == a[..k];
  }

  lemma {:induction false} NonesMonotone(a: Slots, k: nat, l: nat)
    requires k <= l <= |a|
    ensures Nones(a[..k]) <= Nones(a[..l])
    decreases l - k
  {
    if k < l {
      NonesNext(a, k);
      NonesMonotone(a, k + 1, l);
    }
  }

  lemma {:induction false} NonesFill(a: Slots, p: nat, t: Tx)
    requires p < |a| && a[p].None?
    ensures Nones(a[p := Some(t)]) == Nones(a) - 1
  {
    var b := a[p := Some(t)];
    var n := |a| - 1;
    if p == n {
      assert b[..n] == a[..n];
    } else {
      NonesFill(a[..n], p, t);
      assert b[..n] == a[..n][p := Some(t)];
    }
  }

  lemma {:induction false} NonesOfEmpty(a: Slots)
    requires forall p | 0 <= p < |a| :: a[p].None?
    ensures Nones(a) == |a|
  {
    if a != [] {
      NonesOfEmpty(a[..|a| - 1]);
    }
  }

  /** `q` is the empty slot number `i`. */
  ghost predicate IsSlot(a: Slots, i: nat, q: nat) {
    q < |a| && a[q].None? && Nones(a[..q]) == i
  }

  lemma SlotsInOrder(a: Slots, i: nat, q: nat, j: nat, r: nat)
    requires IsSlot(a, i, q) && IsSlot(a, j, r)
    ensures q < r <==> i < j
    ensures q == r <==> i == j
  {
    if q < r {
      NonesNext(a, q);
      NonesMonotone(a, q + 1, r);
    } else if r < q {
      NonesNext(a, r);
      NonesMonotone(a, r + 1, q);
    }
  }

  // ---------------------------------------------------------------- prefilled transactions

  /** The position of prefilled transaction `k - 1`, positions being coded as distances. */
  ghost function Last(pre: seq<Prefilled>, k: nat): int
    requires k <= |pre|
  {
    if k == 0 then -1 else Last(pre, k - 1) + pre[k - 1].index + 1
  }

  /** Prefilled transaction `k - 1` is not null, has a 16-bit position, and leaves no slot uncovered. */
  ghost predicate FitsAt(m: Message, k: nat)
    requires 0 < k <= |m.prefilled|
  {
    !m.prefilled[k - 1].tx.isNull && Last(m.prefilled, k) <= MAX16 && Last(m.prefilled, k) <= |m.shortIds| + k - 1
  }

  ghost predicate PrefilledOk(m: Message) {
    forall k | 0 < k <= |m.prefilled| :: FitsAt(m, k)
  }

  /** The slots hold the prefilled transactions and nothing else, and there is one empty slot for each
      short id. */
  ghost predicate HoldsPrefilled(m: Message, a: Slots) {
    && |a| == |m.shortIds| + |m.prefilled| && Nones(a) == |m.shortIds|
    && (forall k | 0 < k <= |m.prefilled| ::
         0 <= Last(m.prefilled, k) < |a| && a[Last(m.prefilled, k)] == Some(m.prefilled[k - 1].tx))
    && forall p | 0 <= p < |a| && a[p].Some? :: exists k | 0 < k <= |m.prefilled| :: Last(m.prefilled, k) == p
  }

  method PlacePrefilled(m: Message) returns (ok: bool, a: Slots)
    ensures ok <==> PrefilledOk(m)
    ensures ok ==> HoldsPrefilled(m, a)
    ensures !ok ==> exists i: nat | i < |m.prefilled| :: Placed(m, a, i) && !FitsAt(m, i + 1) && forall k | 0 < k <= i :: FitsAt(m, k)
  {
    hide Nones;
    var pre, total := m.prefilled, |m.shortIds| + |m.prefilled|;
    a := seq(total, _ => None);
    NonesOfEmpty(a);
    var last := -1;
    for i := 0 to |pre|
      invariant last == Last(pre, i) && Placed(m, a, i)
      invariant forall k | 0 < k <= i :: FitsAt(m, k)
    {
      ghost var k := i + 1;
      if pre[i].tx.isNull {
        assert !FitsAt(m, k);
        return false, a;
      }
      last := last + pre[i].index + 1;
      assert last == Last(pre, k);
      if last > MAX16 || last > |m.shortIds| + i {
        assert !FitsAt(m, k);
        return false, a;
      }
      PlaceOne(m, a, i);
      a := a[last := Some(pre[i].tx)];
    }
    ok := true;
  }

  /** The first `i` prefilled transactions are in place. */
  ghost predicate Placed(m: Message, a: Slots, i: nat)
    requires i <= |m.prefilled|
  {
    && |a| == |m.shortIds| + |m.prefilled| && Last(m.prefilled, i) < |a| && Nones(a) == |a| - i
    && InPlace(m, a, i) && NothingElse(m, a, i)
  }

  ghost predicate InPlace(m: Message, a: Slots, i: nat)
    requires i <= |m.prefilled| && Last(m.prefilled, i) < |a|
  {
    forall k | 0 < k <= i ::
      0 <= Last(m.prefilled, k) <= Last(m.prefilled, i) && a[Last(m.prefilled, k)] == Some(m.prefilled[k - 1].tx)
  }

  ghost predicate NothingElse(m: Message, a: Slots, i: nat)
    requires i <= |m.prefilled|
  {
    forall p | 0 <= p < |a| && a[p].Some? ::
      p <= Last(m.prefilled, i) && exists k | 0 < k <= i :: Last(m.prefilled, k) == p
  }

  lemma LastNext(pre: seq<Prefilled>, i: nat)
    requires i < |pre|
    ensures Last(pre, i + 1) == Last(pre, i) + pre[i].index + 1
    ensures i == 0 ==> Last(pre, i) == -1
  {
  }

  lemma PlaceOne(m: Message, a: Slots, i: nat)
    requires i < |m.prefilled| && Placed(m, a, i) && Last(m.prefilled, i + 1) <= |m.shortIds| + i
    ensures 0 <= Last(m.prefilled, i + 1) < |a|
    ensures Placed(m, a[Last(m.prefilled, i + 1) := Some(m.prefilled[i].tx)], i + 1)
  {
    hide Nones, Last, InPlace, NothingElse;
    var last := Last(m.prefilled, i + 1);
    LastNext(m.prefilled, i);
    LastBounds(m, a, i);
    NonesFill(a, last, m.prefilled[i].tx);
    InPlaceNext(m, a, i);
    NothingElseNext(m, a, i);
  }

  lemma LastBounds(m: Message, a: Slots, i: nat)
    requires i < |m.prefilled| && Last(m.prefilled, i) < |a| && InPlace(m, a, i) && NothingElse(m, a, i)
    ensures -1 <= Last(m.prefilled, i)
    ensures Last(m.prefilled, i) < Last(m.prefilled, i + 1) < |a| ==> a[Last(m.prefilled, i + 1)].None?
  {
    hide Last;
    LastNext(m.prefilled, i);
  }

  lemma InPlaceNext(m: Message, a: Slots, i: nat)
    requires i < |m.prefilled| && 0 <= Last(m.prefilled, i + 1) < |a|
    requires Last(m.prefilled, i) < Last(m.prefilled, i + 1) && InPlace(m, a, i)
    ensures InPlace(m, a[Last(m.prefilled, i + 1) := Some(m.prefilled[i].tx)], i + 1)
  {
    hide Last;
  }

  lemma NothingElseNext(m: Message, a: Slots, i: nat)
    requires i < |m.prefilled| && NothingElse(m, a, i)
    requires 0 <= Last(m.prefilled, i + 1) < |a| && Last(m.prefilled, i) < Last(m.prefilled, i + 1)
    ensures NothingElse(m, a[Last(m.prefilled, i + 1) := Some(m.prefilled[i].tx)], i + 1)
  {
    hide Last;
    var pre, j := m.prefilled, i + 1;
    var last := Last(pre, j);
    var b := a[last := Some(pre[i].tx)];
    forall p | 0 <= p < |b| && b[p].Some? ensures p <= last && exists k | 0 < k <= j :: Last(pre, k) == p {
      if p == last {
        assert Last(pre, j) == p;
      } else {
        assert a[p].Some?;
      }
    }
  }

  // ---------------------------------------------------------------- short ids to slots

  lemma {:induction false} Cardinality(s: seq<nat>)
    ensures |Elems(s)| <= |s|
    ensures |Elems(s)| == |s| <==> NoDuplicates(s)
  {
    if s != [] {
      var n := |s| - 1;
      var t := s[..n];
      Cardinality(t);
      assert s == t + [s[n]];
      assert Elems(s) == Elems(t) + {s[n]};
      if s[n] in t {
        var i :| 0 <= i < n && t[i] == s[n];
        assert s[i] == s[n];
        assert Elems(s) == Elems(t);
      } else {
        assert NoDuplicates(t) ==> NoDuplicates(s);
        assert NoDuplicates(s) ==> NoDuplicates(t);
      }
    }
  }

  /** The empty slot number `i`. */
  ghost function SlotAt(a: Slots, i: nat): (q: nat)
    requires i < Nones(a)
    ensures IsSlot(a, i, q)
  {
    var n := |a| - 1;
    if i < Nones(a[..n]) then
      var q := SlotAt(a[..n], i);
      assert a[..n][..q] == a[..q];
      q
    else n
  }

  const SIZE16 := MAX16 + 1

  /** What is left of a number in 16 bits. */
  function Low16(q: nat): (r: nat)
    ensures r < SIZE16 && r <= q && (q < SIZE16 ==> r == q)
  {
    q % SIZE16
  }

  /** Each short id leads to the empty slot of its number. */
  ghost predicate Slotted(a: Slots, ids: seq<nat>, slots: map<nat, nat>) {
    && slots.Keys == Elems(ids) && NoDuplicates(ids)
    && forall i | 0 <= i < |ids| :: ids[i] in slots && IsSlot(a, i, slots[ids[i]])
  }

  /** Each short id leads to the empty slot of its number, as far as 16 bits can tell. */
  ghost predicate Mapped(a: Slots, ids: seq<nat>, slots: map<nat, nat>) {
    && Nones(a) == |ids| && slots.Keys == Elems(ids) && NoDuplicates(ids)
    && forall i | 0 <= i < |ids| :: ids[i] in slots && slots[ids[i]] == Low16(SlotAt(a, i))
  }

  /** Slots that 16 bits cannot tell are empty. */
  ghost predicate EmptyAbove(a: Slots) {
    forall p | SIZE16 <= p < |a| :: a[p].None?
  }

  datatype Status = Ok | Invalid | Failed | CheckBlockFailed | NeverReturns

  /** After `i` short ids: the last of equal ids decides the slot. */
  ghost predicate MappedUpTo(a: Slots, ids: seq<nat>, slots: map<nat, nat>, i: nat)
    requires i <= |ids| == Nones(a)
  {
    && slots.Keys == Elems(ids[..i])
    && forall j | 0 <= j < i && (forall k | j < k < i :: ids[k] != ids[j]) ::
         ids[j] in slots && slots[ids[j]] == Low16(SlotAt(a, j))
  }

  lemma MapNext(a: Slots, ids: seq<nat>, slots: map<nat, nat>, i: nat, q: nat)
    requires i < |ids| == Nones(a) && MappedUpTo(a, ids, slots, i) && IsSlot(a, i, q)
    ensures MappedUpTo(a, ids, slots[ids[i] := Low16(q)], i + 1)
  {
    hide IsSlot, SlotAt;
    SlotsInOrder(a, i, q, i, SlotAt(a, i));
    var next := slots[ids[i] := Low16(q)];
    assert ids[..i + 1] == ids[..i] + [ids[i]];
    forall j | 0 <= j < i + 1 && (forall k | j < k < i + 1 :: ids[k] != ids[j])
      ensures ids[j] in next && next[ids[j]] == Low16(SlotAt(a, j))
    {
      if j < i {
        assert ids[i] != ids[j];
      }
    }
  }

  lemma MappedAll(a: Slots, ids: seq<nat>, slots: map<nat, nat>)
    requires |ids| == Nones(a) && MappedUpTo(a, ids, slots, |ids|)
    ensures |slots| == |ids| <==> NoDuplicates(ids)
    ensures |slots| == |ids| ==> Mapped(a, ids, slots)
  {
    hide SlotAt;
    assert ids[..|ids|] == ids;
    Cardinality(ids);
    assert |slots| == |slots.Keys|;
  }

  /** As long as short ids are left there is an empty slot ahead. */
  lemma StillSlots(a: Slots, i: nat, k: nat)
    requires i < Nones(a) && k <= |a| && Nones(a[..k]) == i
    ensures k < |a|
  {
    assert a[..|a|] == a;
  }

  /** No part of the slots has more full ones than the whole. */
  lemma {:induction false} FullBound(a: Slots, k: nat)
    requires k <= |a|
    ensures k - Nones(a[..k]) <= |a| - Nones(a)
    decreases |a| - k
  {
    if k < |a| {
      NonesNext(a, k);
      FullBound(a, k + 1);
    } else {
      assert a[..|a|] == a;
    }
  }

  lemma {:induction false} EmptyEnd(a: Slots, k: nat)
    requires k <= |a| && forall p | k <= p < |a| :: a[p].None?
    ensures Nones(a) == Nones(a[..k]) + |a| - k
    decreases |a| - k
  {
    if k < |a| {
      NonesNext(a, k);
      EmptyEnd(a, k + 1);
    } else {
      assert a[..|a|] == a;
    }
  }

  lemma {:induction false} AllFull(a: Slots, k: nat, p: nat)
    requires p < k <= |a| && Nones(a[..k]) == 0
    ensures a[p].Some?
  {
    NonesNext(a, k - 1);
    if p < k - 1 {
      AllFull(a, k - 1, p);
    }
  }

  /** There are never more full slots than 16 bits can tell. When there are as many, they are the first ones,
      and a search can only be at the very first short id. */
  lemma FullSlots(a: Slots, i: nat, k: nat)
    requires EmptyAbove(a) && i < Nones(a) && k <= |a| && Nones(a[..k]) == i && k - i <= MAX16
    ensures |a| - Nones(a) <= SIZE16
    ensures |a| - Nones(a) == SIZE16 ==> i == 0 && |a| > SIZE16 && forall p | 0 <= p < SIZE16 :: a[p].Some?
  {
    if |a| >= SIZE16 {
      EmptyEnd(a, SIZE16);
      if |a| - Nones(a) == SIZE16 {
        forall p | 0 <= p < SIZE16 ensures a[p].Some? {
          AllFull(a, SIZE16, p);
        }
        if k <= SIZE16 {
          NonesMonotone(a, k, SIZE16);
        } else {
          assert a[..k][..SIZE16] == a[..SIZE16];
          EmptyEnd(a[..k], SIZE16);
        }
      }
    }
  }

  /** A 16-bit number counted up. */
  function Next16(x: nat): (r: nat)
    requires x <= MAX16
    ensures r == if x == MAX16 then 0 else x + 1
  {
    (x + 1) % SIZE16
  }

  /** Where the search is after `n` steps. */
  ghost function Visited(i: nat, from: nat, n: nat): nat {
    i + (from + n) % SIZE16
  }

  /** The search for the next empty slot at or after position `i + from`, with a 16-bit offset. After as many
      steps as there are offsets it is back where it started, and goes on for ever. */
  method NextEmpty(a: Slots, i: nat, from: nat) returns (ends: bool, offset: nat)
    requires EmptyAbove(a) && i < Nones(a) && from <= MAX16 && i + from <= |a| && Nones(a[..i + from]) == i
    ensures ends <==> |a| - Nones(a) <= MAX16
    ensures ends ==> offset <= MAX16 && IsSlot(a, i, i + offset) && Nones(a[..i + offset + 1]) == i + 1
    ensures !ends ==> forall n: nat :: Visited(i, from, n) < |a| && a[Visited(i, from, n)].Some?
  {
    hide Nones, Next16;
    ghost var full := |a| - Nones(a);
    FullSlots(a, i, i + from);
    StillSlots(a, i, i + from);
    FullBound(a, i + from);
    offset := from;
    var steps := 0;
    while a[i + offset].Some?
      invariant steps <= SIZE16 && i + offset < |a| && offset <= MAX16
      invariant full <= MAX16 ==> offset == from + steps && Nones(a[..i + offset]) == i
      decreases SIZE16 - steps
    {
      if steps == SIZE16 {
        return false, offset;
      }
      if full <= MAX16 {
        NonesNext(a, i + offset);
        StillSlots(a, i, i + offset + 1);
        FullBound(a, i + offset + 1);
      }
      offset := Next16(offset);
      steps := steps + 1;
    }
    ends := true;
    NonesNext(a, i + offset);
  }

  /** The map from short ids to 16-bit positions; `crowded` says after which insertions a hash bucket is
      too full. It never ends if as many slots are full as 16 bits can tell. */
  method MapSlots(a: Slots, ids: seq<nat>, crowded: nat -> bool) returns (status: Status, slots: map<nat, nat>)
    requires Nones(a) == |ids| && EmptyAbove(a)
    ensures status == Ok || status == Failed || status == NeverReturns
    ensures status == NeverReturns <==> ids != [] && |a| - |ids| == SIZE16
    ensures status == Failed <==>
              !(ids != [] && |a| - |ids| == SIZE16) && (!NoDuplicates(ids) || exists i: nat | i < |ids| :: crowded(i))
    ensures status == Ok ==> Mapped(a, ids, slots)
  {
    hide Nones, Mapped, MappedUpTo, NoDuplicates;
    slots := map[];
    var offset: nat := 0;
    assert a[..0] == [];
    NonesOfEmpty(a[..0]);
    MapNothing(a, ids);
    if ids != [] {
      FullSlots(a, 0, 0);
    }
    for i := 0 to |ids|
      invariant offset <= MAX16 && i + offset <= |a| && Nones(a[..i + offset]) == i
      invariant MappedUpTo(a, ids, slots, i)
      invariant i > 0 ==> |a| - |ids| <= MAX16
      invariant forall k: nat | k < i :: !crowded(k)
    {
      var ends;
      ends, offset := NextEmpty(a, i, offset);
      if !ends {
        return NeverReturns, slots;
      }
      MapNext(a, ids, slots, i, i + offset);
      slots := slots[ids[i] := Low16(i + offset)];
      if crowded(i) {
        return Failed, slots;
      }
    }
    MappedAll(a, ids, slots);
    status := if |slots| != |ids| then Failed else Ok;
  }

  lemma MapNothing(a: Slots, ids: seq<nat>)
    requires |ids| == Nones(a)
    ensures MappedUpTo(a, ids, map[], 0)
  {
    assert ids[..0] == [];
  }

  /** Every short id leads to an empty slot of its own. */
  ghost predicate OwnSlots(a: Slots, slots: map<nat, nat>) {
    && (forall id | id in slots :: slots[id] < |a| && a[slots[id]].None?)
    && (forall x, y | x in slots && y in slots && x != y :: slots[x] != slots[y])
  }

  /** That is so if and only if 16 bits can tell all slots, and then each leads to the slot of its number. */
  lemma OwnSlotsExactly(a: Slots, ids: seq<nat>, slots: map<nat, nat>)
    requires Mapped(a, ids, slots) && EmptyAbove(a) && |a| - |ids| <= MAX16
    ensures OwnSlots(a, slots) <==> |a| <= SIZE16
    ensures Slotted(a, ids, slots) <==> |a| <= SIZE16
  {
    hide Nones, SlotAt;
    if |a| <= SIZE16 {
      AllWithin(a, ids, slots);
    } else {
      var i := LastWraps(a, ids, slots);
      LastIsShared(a, ids, slots, i);
    }
  }

  lemma AllWithin(a: Slots, ids: seq<nat>, slots: map<nat, nat>)
    requires Mapped(a, ids, slots) && |a| <= SIZE16
    ensures Slotted(a, ids, slots) && OwnSlots(a, slots)
  {
    hide Nones, SlotAt, Low16;
    forall i | 0 <= i < |ids| ensures ids[i] in slots && IsSlot(a, i, slots[ids[i]]) {
      assert slots[ids[i]] == Low16(SlotAt(a, i));
    }
    assert Slotted(a, ids, slots);
    hide Slotted, Mapped, IsSlot;
    forall x | x in slots ensures slots[x] < |a| && a[slots[x]].None? {
      Apart(a, ids, slots, x, x);
    }
    forall x, y | x in slots && y in slots && x != y ensures slots[x] != slots[y] {
      Apart(a, ids, slots, x, y);
    }
  }

  /** With more slots than 16 bits can tell, the last short id leads to a slot at the front. */
  lemma LastWraps(a: Slots, ids: seq<nat>, slots: map<nat, nat>) returns (i: nat)
    requires Mapped(a, ids, slots) && EmptyAbove(a) && |a| > SIZE16
    ensures i == |ids| - 1 && IsSlot(a, i, |a| - 1) && ids[i] in slots && slots[ids[i]] == Low16(|a| - 1) < |a| - 1
  {
    var n := |a| - 1;
    NonesNext(a, n);
    assert a[..n + 1] == a;
    i := |ids| - 1;
    SlotsInOrder(a, i, n, i, SlotAt(a, i));
  }

  /** That slot is full, or another short id leads to it too. */
  lemma LastIsShared(a: Slots, ids: seq<nat>, slots: map<nat, nat>, i: nat)
    requires Mapped(a, ids, slots) && |a| > SIZE16 && i == |ids| - 1
    requires IsSlot(a, i, |a| - 1) && ids[i] in slots && slots[ids[i]] == Low16(|a| - 1)
    ensures !OwnSlots(a, slots) && !Slotted(a, ids, slots)
  {
    hide Nones, SlotAt, Low16;
    var p := slots[ids[i]];
    if Slotted(a, ids, slots) {
      SlotsInOrder(a, i, |a| - 1, i, p);
      assert false;
    }
    hide Slotted;
    if a[p].None? {
      var j := NumberOf(a, p);
      SlotsInOrder(a, j, p, i, |a| - 1);
      SlotsInOrder(a, j, p, j, SlotAt(a, j));
      MappedKeys(a, ids, slots);
      assert slots[ids[j]] == p && ids[j] != ids[i];
    }
  }

  lemma NumberOf(a: Slots, p: nat) returns (i: nat)
    requires p < |a| && a[p].None?
    ensures i < Nones(a) && IsSlot(a, i, p)
  {
    i := Nones(a[..p]);
    NonesNext(a, p);
    NonesMonotone(a, p + 1, |a|);
    assert a[..|a|] == a;
  }

  /** Different short ids have different empty slots. */
  lemma Apart(base: Slots, ids: seq<nat>, slots: map<nat, nat>, x: nat, y: nat)
    requires Slotted(base, ids, slots) && x in slots && y in slots
    ensures slots[x] < |base| && base[slots[x]].None?
    ensures x != y ==> slots[x] != slots[y]
  {
    hide Nones;
    assert x in Elems(ids) && y in Elems(ids);
    var i :| 0 <= i < |ids| && ids[i] == x;
    var k :| 0 <= k < |ids| && ids[k] == y;
    SlotsInOrder(base, i, slots[x], k, slots[y]);
  }

  lemma MappedInside(a: Slots, ids: seq<nat>, slots: map<nat, nat>, id: nat)
    requires Mapped(a, ids, slots) && id in slots
    ensures slots[id] < |a|
  {
    hide Nones, SlotAt;
    var i := IndexWithin(ids, slots, id);
    var q := SlotAt(a, i);
    assert slots[id] == Low16(q);
  }

  lemma IndexWithin(ids: seq<nat>, slots: map<nat, nat>, id: nat) returns (i: nat)
    requires slots.Keys == Elems(ids) && id in slots
    ensures i < |ids| && ids[i] == id
  {
    assert id in Elems(ids);
    i :| i < |ids| && ids[i] == id;
  }

  // ---------------------------------------------------------------- looking for candidates

  /** What is known of one short id: nothing, one candidate, or two different ones. */
  datatype Slot = Empty | Have(tx: Tx) | Clash

  type Candidates = seq<(nat, Tx)>

  /** A memory pool entry with the right short id: a second one is a clash. */
  function Meet(s: Slot, t: Tx): Slot {
    if s.Empty? then Have(t) else Clash
  }

  /** An extra transaction with the right short id: the same transaction again is no clash. */
  function MeetExtra(s: Slot, t: Tx): Slot {
    match s
    case Empty => Have(t)
    case Have(u) => if u.witnessId != t.witnessId then Clash else s
    case Clash => Clash
  }

  ghost function Look(sid: ShortId, pool: Candidates, id: nat): Slot {
    if pool == [] then Empty
    else
      var s, last := Look(sid, pool[..|pool| - 1], id), pool[|pool| - 1];
      if sid(last.0) == id then Meet(s, last.1) else s
  }

  ghost function LookExtra(sid: ShortId, start: Slot, extra: Candidates, id: nat): Slot {
    if extra == [] then start
    else
      var s, last := LookExtra(sid, start, extra[..|extra| - 1], id), extra[|extra| - 1];
      if sid(last.0) == id then MeetExtra(s, last.1) else s
  }

  function Offer(s: Slot): Option<Tx> {
    if s.Have? then Some(s.tx) else None
  }

  // ---------------------------------------------------------------- the scans

  /** What is known of each slot after one more candidate for short id `id`. */
  ghost function Noted(slots: map<nat, nat>, known: seq<Slot>, id: nat, t: Tx): (r: seq<Slot>)
    ensures |r| == |known|
  {
    if id in slots && slots[id] < |known| then known[slots[id] := Meet(known[slots[id]], t)] else known
  }

  ghost function NotedExtra(slots: map<nat, nat>, known: seq<Slot>, id: nat, t: Tx): (r: seq<Slot>)
    ensures |r| == |known|
  {
    if id in slots && slots[id] < |known| then known[slots[id] := MeetExtra(known[slots[id]], t)] else known
  }

  /** What is known of each of `n` slots after the memory pool was looked at. */
  ghost function Seen(sid: ShortId, slots: map<nat, nat>, pool: Candidates, n: nat): (r: seq<Slot>)
    ensures |r| == n
  {
    if pool == [] then seq(n, _ => Empty)
    else
      var last := pool[|pool| - 1];
      Noted(slots, Seen(sid, slots, pool[..|pool| - 1], n), sid(last.0), last.1)
  }

  /** And after the extra transactions. */
  ghost function SeenExtra(sid: ShortId, slots: map<nat, nat>, start: seq<Slot>, extra: Candidates): (r: seq<Slot>)
    ensures |r| == |start|
  {
    if extra == [] then start
    else
      var last := extra[|extra| - 1];
      NotedExtra(slots, SeenExtra(sid, slots, start, extra[..|extra| - 1]), sid(last.0), last.1)
  }

  lemma SeenNext(sid: ShortId, slots: map<nat, nat>, pool: Candidates, n: nat, i: nat)
    requires i < |pool|
    ensures Seen(sid, slots, pool[..i + 1], n) == Noted(slots, Seen(sid, slots, pool[..i], n), sid(pool[i].0), pool[i].1)
  {
    assert pool[..i + 1][..i] == pool[..i];
  }

  lemma SeenExtraNext(sid: ShortId, slots: map<nat, nat>, start: seq<Slot>, extra: Candidates, i: nat)
    requires i < |extra|
    ensures SeenExtra(sid, slots, start, extra[..i + 1]) ==
            NotedExtra(slots, SeenExtra(sid, slots, start, extra[..i]), sid(extra[i].0), extra[i].1)
  {
    assert extra[..i + 1][..i] == extra[..i];
  }

  ghost function HaveSlots(known: seq<Slot>): set<nat> {
    set p: nat | p < |known| && known[p].Have?
  }

  /** What a slot holds: what it held before the scans until a candidate is found. */
  ghost function Held(before: Option<Tx>, s: Slot): Option<Tx> {
    if s.Empty? then before else Offer(s)
  }

  /** The state of a scan. */
  ghost predicate Scanned(base: Slots, a: Slots, have: seq<bool>, count: int, known: seq<Slot>) {
    && |base| == |a| == |have| == |known| && count == |HaveSlots(known)|
    && forall p | 0 <= p < |a| :: have[p] == !known[p].Empty? && a[p] == Held(base[p], known[p])
  }

  lemma NothingScanned(base: Slots, have: seq<bool>, known: seq<Slot>)
    requires |have| == |base| == |known| && (forall p | 0 <= p < |have| :: !have[p] && known[p] == Empty)
    ensures Scanned(base, base, have, 0, known)
  {
    assert HaveSlots(known) == {};
  }

  /** Handling one candidate changes one slot. */
  lemma ScanOne(base: Slots, a: Slots, have: seq<bool>, count: int, known: seq<Slot>, q: nat, s: Slot)
    requires Scanned(base, a, have, count, known) && q < |a| && !s.Empty?
    ensures |a| == |have| == |known| && have[q] == !known[q].Empty? && a[q] == Held(base[q], known[q])
    ensures known[q].Have? ==> count > 0
    ensures Scanned(base, a[q := Offer(s)], have[q := true],
                    count + (if s.Have? then 1 else 0) - (if known[q].Have? then 1 else 0), known[q := s])
  {
    WithOrWithout(HaveSlots(known), HaveSlots(known[q := s]), q);
    if known[q].Have? {
      assert q in HaveSlots(known);
    }
  }

  method ScanPool(base: Slots, slots: map<nat, nat>, sid: ShortId, pool: Candidates)
    returns (a: Slots, have: seq<bool>, count: nat, ghost j: nat)
    requires forall id | id in slots :: slots[id] < |base|
    ensures j <= |pool| && Scanned(base, a, have, count, Seen(sid, slots, pool[..j], |base|))
    ensures j < |pool| ==> count == |slots|
    ensures NotBefore(sid, slots, pool, |base|, j)
  {
    hide Scanned, Seen, HaveSlots;
    a, have, count := base, seq(|base|, _ => false), 0;
    NothingSeen(sid, slots, pool, |base|);
    NothingScanned(base, have, Seen(sid, slots, pool[..0], |base|));
    var i := 0;
    while i < |pool|
      invariant i <= |pool| && Scanned(base, a, have, count, Seen(sid, slots, pool[..i], |base|))
      invariant NotBefore(sid, slots, pool, |base|, i) && (i > 0 ==> count != |slots|)
    {
      var id := sid(pool[i].0);
      ghost var known := Seen(sid, slots, pool[..i], |base|);
      CountIs(base, a, have, count, known);
      SeenNext(sid, slots, pool, |base|, i);
      if id in slots {
        SameSizes(base, a, have, count, known);
        ScanOne(base, a, have, count, known, slots[id], Meet(known[slots[id]], pool[i].1));
        if !have[slots[id]] {
          a := a[slots[id] := Some(pool[i].1)];
          have := have[slots[id] := true];
          count := count + 1;
        } else {
          assert have[slots[id] := true] == have;
          if a[slots[id]].Some? {
            a := a[slots[id] := None];
            count := count - 1;
          } else {
            assert a[slots[id] := None] == a;
          }
        }
      }
      i := i + 1;
      if count == |slots| {
        break;
      }
    }
    j := i;
  }

  lemma SameSizes(base: Slots, a: Slots, have: seq<bool>, count: int, known: seq<Slot>)
    requires Scanned(base, a, have, count, known)
    ensures |base| == |a| == |have| == |known|
  {
  }

  lemma NothingSeen(sid: ShortId, slots: map<nat, nat>, pool: Candidates, n: nat)
    ensures pool[..0] == [] && forall p | 0 <= p < n :: Seen(sid, slots, pool[..0], n)[p] == Empty
  {
  }

  method ScanExtra(base: Slots, slots: map<nat, nat>, sid: ShortId, extra: Candidates,
                   a0: Slots, have0: seq<bool>, count0: nat, ghost start: seq<Slot>)
    returns (a: Slots, have: seq<bool>, count: nat, ghost k: nat)
    requires (forall id | id in slots :: slots[id] < |base|) && Scanned(base, a0, have0, count0, start)
    ensures k <= |extra| && Scanned(base, a, have, count, SeenExtra(sid, slots, start, extra[..k]))
    ensures k < |extra| ==> count == |slots|
    ensures ExtraNotBefore(sid, slots, start, extra, k)
  {
    hide Scanned, SeenExtra, HaveSlots;
    a, have, count := a0, have0, count0;
    NothingMore(sid, slots, start, extra);
    var i := 0;
    while i < |extra|
      invariant i <= |extra| && Scanned(base, a, have, count, SeenExtra(sid, slots, start, extra[..i]))
      invariant ExtraNotBefore(sid, slots, start, extra, i) && (i > 0 ==> count != |slots|)
    {
      var id := sid(extra[i].0);
      ghost var known := SeenExtra(sid, slots, start, extra[..i]);
      CountIs(base, a, have, count, known);
      SeenExtraNext(sid, slots, start, extra, i);
      if id in slots {
        SameSizes(base, a, have, count, known);
        ScanOne(base, a, have, count, known, slots[id], MeetExtra(known[slots[id]], extra[i].1));
        if !have[slots[id]] {
          a := a[slots[id] := Some(extra[i].1)];
          have := have[slots[id] := true];
          count := count + 1;
        } else {
          assert have[slots[id] := true] == have;
          if a[slots[id]].Some? && a[slots[id]].value.witnessId != extra[i].1.witnessId {
            a := a[slots[id] := None];
            count := count - 1;
          } else {
            assert a[slots[id] := a[slots[id]]] == a;
          }
        }
      }
      i := i + 1;
      if count == |slots| {
        break;
      }
    }
    k := i;
  }

  lemma NothingMore(sid: ShortId, slots: map<nat, nat>, start: seq<Slot>, extra: Candidates)
    ensures extra[..0] == [] && SeenExtra(sid, slots, start, extra[..0]) == start
  {
  }

  // ---------------------------------------------------------------- one short id at a time

  ghost predicate Injective(slots: map<nat, nat>, n: nat) {
    && (forall id | id in slots :: slots[id] < n)
    && (forall x, y | x in slots && y in slots && x != y :: slots[x] != slots[y])
  }

  /** When every short id has a slot of its own, what is known of the slot is what is known of the id. */
  lemma {:induction false} SeenIsLook(sid: ShortId, slots: map<nat, nat>, pool: Candidates, n: nat, id: nat)
    requires Injective(slots, n) && id in slots
    ensures Seen(sid, slots, pool, n)[slots[id]] == Look(sid, pool, id)
  {
    if pool != [] {
      SeenIsLook(sid, slots, pool[..|pool| - 1], n, id);
    }
  }

  lemma {:induction false} SeenExtraIsLook(sid: ShortId, slots: map<nat, nat>, start: seq<Slot>, extra: Candidates, id: nat)
    requires Injective(slots, |start|) && id in slots
    ensures SeenExtra(sid, slots, start, extra)[slots[id]] == LookExtra(sid, start[slots[id]], extra, id)
  {
    if extra != [] {
      SeenExtraIsLook(sid, slots, start, extra[..|extra| - 1], id);
    }
  }

  /** Only slots of short ids are ever filled by a scan. */
  lemma {:induction false} SeenElsewhere(sid: ShortId, slots: map<nat, nat>, pool: Candidates, n: nat, p: nat)
    requires p < n && p !in slots.Values
    ensures Seen(sid, slots, pool, n)[p] == Empty
  {
    if pool != [] {
      SeenElsewhere(sid, slots, pool[..|pool| - 1], n, p);
      var id := sid(pool[|pool| - 1].0);
      assert id in slots ==> slots[id] in slots.Values;
    }
  }

  lemma {:induction false} SeenExtraElsewhere(sid: ShortId, slots: map<nat, nat>, start: seq<Slot>, extra: Candidates, p: nat)
    requires p < |start| && p !in slots.Values
    ensures SeenExtra(sid, slots, start, extra)[p] == start[p]
  {
    if extra != [] {
      SeenExtraElsewhere(sid, slots, start, extra[..|extra| - 1], p);
      var id := sid(extra[|extra| - 1].0);
      assert id in slots ==> slots[id] in slots.Values;
    }
  }

  /** As many candidates as short ids, and every short id has one. */
  lemma AllFound(slots: map<nat, nat>, known: seq<Slot>, id: nat)
    requires Injective(slots, |known|) && |HaveSlots(known)| == |slots| && id in slots
    requires forall p | 0 <= p < |known| && p !in slots.Values :: known[p].Empty?
    ensures known[slots[id]].Have?
  {
    var image := set x | x in slots :: slots[x];
    forall p | p in HaveSlots(known) ensures p in image {
      assert p in slots.Values;
      var x :| x in slots && slots[x] == p;
    }
    ImageOf(slots, slots.Keys);
    assert |slots| == |slots.Keys|;
    WholeSet(HaveSlots(known), image);
    assert slots[id] in image;
  }

  lemma {:induction false} ImageOf(slots: map<nat, nat>, ids: set<nat>)
    requires ids <= slots.Keys
    ensures |set x | x in ids :: slots[x]| <= |ids|
    decreases ids
  {
    if ids != {} {
      var y := Element(ids);
      ImageOf(slots, ids - {y});
      assert (set x | x in ids :: slots[x]) == (set x | x in ids - {y} :: slots[x]) + {slots[y]};
    }
  }

  lemma WholeSet<T>(s: set<T>, t: set<T>)
    requires s <= t && |s| >= |t|
    ensures s == t
  {
    assert t == s + (t - s);
  }

  // ---------------------------------------------------------------- InitData

  const MAX_TRANSACTIONS := 8000000 / 40

  ghost predicate OnlyEmptyChanged(base: Slots, a: Slots) {
    |a| == |base| && forall p | 0 <= p < |base| && base[p].Some? :: a[p] == base[p]
  }

  /** What is offered for short id `id` after `j` pool entries and `k` extra transactions were looked at. */
  ghost function Found(sid: ShortId, pool: Candidates, extra: Candidates, j: nat, k: nat, id: nat): Slot
    requires j <= |pool| && k <= |extra|
  {
    LookExtra(sid, Look(sid, pool[..j], id), extra[..k], id)
  }

  /** The prefilled transactions are those of `base`, and the empty slot of each short id has what was found
      for it. The scans stop early only when everything is found. */
  ghost predicate Initialised(m: Message, sid: ShortId, pool: Candidates, extra: Candidates, base: Slots, a: Slots, j: nat, k: nat)
  {
    && HoldsPrefilled(m, base) && OnlyEmptyChanged(base, a) && j <= |pool| && k <= |extra| && NoDuplicates(m.shortIds)
    && (forall i, q: nat | 0 <= i < |m.shortIds| && IsSlot(base, i, q) :: a[q] == Offer(Found(sid, pool, extra, j, k, m.shortIds[i])))
    && (j < |pool| ==> forall i | 0 <= i < |m.shortIds| :: Look(sid, pool[..j], m.shortIds[i]).Have?)
    && (k < |extra| ==> forall i | 0 <= i < |m.shortIds| :: Found(sid, pool, extra, j, k, m.shortIds[i]).Have?)
  }

  ghost predicate Acceptable(m: Message) {
    && !m.headerNull && !(m.shortIds == [] && m.prefilled == [])
    && |m.shortIds| + |m.prefilled| <= MAX_TRANSACTIONS && PrefilledOk(m)
  }

  /** As many transactions are prefilled as 16 bits can tell, and a short id remains. */
  ghost predicate Endless(m: Message) {
    m.shortIds != [] && |m.prefilled| == SIZE16
  }

  /** The scan of the pool ends as soon as every short id has a transaction. */
  ghost predicate NotBefore(sid: ShortId, slots: map<nat, nat>, pool: Candidates, n: nat, j: nat)
    requires j <= |pool|
  {
    forall i: nat | 0 < i < j :: |HaveSlots(Seen(sid, slots, pool[..i], n))| != |slots|
  }

  ghost predicate ExtraNotBefore(sid: ShortId, slots: map<nat, nat>, start: seq<Slot>, extra: Candidates, k: nat)
    requires k <= |extra|
  {
    forall i: nat | 0 < i < k :: |HaveSlots(SeenExtra(sid, slots, start, extra[..i]))| != |slots|
  }

  /** The number of slots that the scans leave with a transaction. */
  ghost function FoundCount(sid: ShortId, slots: map<nat, nat>, pool: Candidates, extra: Candidates, n: nat, j: nat, k: nat): nat
  {
    if j <= |pool| && k <= |extra| then |HaveSlots(SeenExtra(sid, slots, Seen(sid, slots, pool[..j], n), extra[..k]))| else 0
  }

  /** The slots after `InitData`, for messages of any length: the prefilled transactions in `base`, the slots
      that the short ids were given in 16 bits, and in each slot what the scans found for it. */
  ghost predicate Scans(m: Message, sid: ShortId, pool: Candidates, extra: Candidates, base: Slots, slots: map<nat, nat>,
                        a: Slots, j: nat, k: nat)
  {
    && HoldsPrefilled(m, base) && Mapped(base, m.shortIds, slots) && j <= |pool| && k <= |extra| && |a| == |base|
    && var first := Seen(sid, slots, pool[..j], |base|);
       var known := SeenExtra(sid, slots, first, extra[..k]);
       && (forall p | 0 <= p < |a| :: a[p] == Held(base[p], known[p]))
       && (j < |pool| ==> |HaveSlots(first)| == |slots|) && NotBefore(sid, slots, pool, |base|, j)
       && (k < |extra| ==> |HaveSlots(known)| == |slots|) && ExtraNotBefore(sid, slots, first, extra, k)
  }

  class PartiallyDownloadedBlock {
    var headerNull: bool
    var txnAvailable: Slots
    var prefilledCount: nat
    var mempoolCount: nat

    constructor ()
      ensures headerNull && txnAvailable == [] && prefilledCount == mempoolCount == 0
    {
      headerNull, txnAvailable, prefilledCount, mempoolCount := true, [], 0, 0;
    }

    method InitData(m: Message, sid: ShortId, pool: Candidates, extra: Candidates, crowded: nat -> bool) returns (status: Status)
      requires headerNull && txnAvailable == []
      modifies this
      ensures status != CheckBlockFailed && (status == Invalid <==> !Acceptable(m))
      ensures status == NeverReturns <==> Acceptable(m) && Endless(m)
      ensures status == Failed <==>
                Acceptable(m) && !Endless(m) && (!NoDuplicates(m.shortIds) || exists i: nat | i < |m.shortIds| :: crowded(i))
      ensures headerNull <==> m.headerNull || |m.shortIds| + |m.prefilled| == 0 || |m.shortIds| + |m.prefilled| > MAX_TRANSACTIONS
      ensures headerNull ==> txnAvailable == [] && prefilledCount == old(prefilledCount) && mempoolCount == old(mempoolCount)
      ensures status == Failed || status == NeverReturns ==> HoldsPrefilled(m, txnAvailable)
      ensures status == Failed || status == NeverReturns || status == Ok ==> prefilledCount == |m.prefilled|
      ensures status == Ok ==> exists base, slots, j, k ::
                Scans(m, sid, pool, extra, base, slots, txnAvailable, j, k) && mempoolCount == FoundCount(sid, slots, pool, extra, |base|, j, k)
    {
      hide Mapped, Scanned, HoldsPrefilled, Nones, PrefilledOk, Seen, SeenExtra, NoDuplicates;
      if m.headerNull || (m.shortIds == [] && m.prefilled == []) {
        return Invalid;
      }
      if |m.shortIds| + |m.prefilled| > MAX_TRANSACTIONS {
        return Invalid;
      }
      headerNull := false;
      var ok, base := PlacePrefilled(m);
      txnAvailable := base;
      if !ok {
        return Invalid;
      }
      prefilledCount := |m.prefilled|;
      PrefilledSizes(m, base);
      var slots;
      status, slots := MapSlots(base, m.shortIds, crowded);
      if status != Ok {
        return;
      }
      var have;
      ghost var j, k;
      forall id | id in slots ensures slots[id] < |base| {
        MappedInside(base, m.shortIds, slots, id);
      }
      txnAvailable, have, mempoolCount, j := ScanPool(base, slots, sid, pool);
      ghost var first := Seen(sid, slots, pool[..j], |base|);
      CountIs(base, txnAvailable, have, mempoolCount, first);
      txnAvailable, have, mempoolCount, k := ScanExtra(base, slots, sid, extra, txnAvailable, have, mempoolCount, first);
      CountIs(base, txnAvailable, have, mempoolCount, SeenExtra(sid, slots, first, extra[..k]));
      assert Scans(m, sid, pool, extra, base, slots, txnAvailable, j, k) && mempoolCount == FoundCount(sid, slots, pool, extra, |base|, j, k);
    }

    /** `FillBlock`: the block, when there are exactly as many missing transactions as empty slots. With too
        few of them the header stays and the slots before the one without a transaction are emptied; otherwise
        everything is cleared. */
    method FillBlock(missing: seq<Tx>, check: seq<Tx> -> CheckResult) returns (status: Status, block: seq<Tx>)
      requires !headerNull
      modifies this
      ensures status == Invalid <==> |missing| != Nones(old(txnAvailable))
      ensures status != Invalid ==> IsFilled(old(txnAvailable), missing, block)
      ensures status != Invalid ==>
                status == match check(block) case Good => Ok case Corrupt => Failed case Bad => CheckBlockFailed
      ensures |missing| >= Nones(old(txnAvailable)) ==> headerNull && txnAvailable == []
      ensures |missing| < Nones(old(txnAvailable)) ==> !headerNull && EmptiedTo(old(txnAvailable), txnAvailable, |missing|)
    {
      hide Nones;
      ghost var a := txnAvailable;
      block := [];
      var offset := 0;
      var i := 0;
      assert a[..0] == [];
      NonesOfEmpty(a[..0]);
      while i < |txnAvailable|
        invariant i <= |a| == |txnAvailable| && |block| == i && offset == Nones(a[..i]) <= |missing|
        invariant forall p | 0 <= p < |a| :: txnAvailable[p] == if p < i then None else a[p]
        invariant !headerNull
        invariant forall p | 0 <= p < i :: FilledAt(a, missing, block, p)
      {
        NonesNext(a, i);
        ghost var was := block;
        if txnAvailable[i].None? {
          if |missing| <= offset {
            NonesMonotone(a, i + 1, |a|);
            assert a[..|a|] == a;
            SlotsInOrder(a, offset, i, offset, SlotAt(a, offset));
            return Invalid, block;
          }
          block := block + [missing[offset]];
          offset := offset + 1;
        } else {
          block := block + [txnAvailable[i].value];
          txnAvailable := txnAvailable[i := None];
        }
        forall p | 0 <= p < i ensures FilledAt(a, missing, block, p) {
          assert FilledAt(a, missing, was, p);
        }
        assert FilledAt(a, missing, block, i);
        i := i + 1;
      }
      assert a[..|a|] == a;
      headerNull, txnAvailable := true, [];
      if |missing| != offset {
        return Invalid, block;
      }
      match check(block)
      case Good => status := Ok;
      case Corrupt => status := Failed;
      case Bad => status := CheckBlockFailed;
    }

    /** The indexes to ask for, in order. */
    method MissingIndexes() returns (indexes: seq<nat>)
      ensures Asks(txnAvailable, indexes)
    {
      hide Nones;
      indexes := [];
      var a := txnAvailable;
      assert a[..0] == [];
      NonesOfEmpty(a[..0]);
      for p := 0 to |a|
        invariant |indexes| == Nones(a[..p]) <= p
        invariant forall i | 0 <= i < |indexes| :: indexes[i] < p && IsSlot(a, i, indexes[i])
      {
        NonesNext(a, p);
        if a[p].None? {
          indexes := indexes + [p];
        }
      }
      assert a[..|a|] == a;
    }
  }

  /** `b` is `a` with everything before empty slot number `i` taken out. */
  ghost predicate EmptiedTo(a: Slots, b: Slots, i: nat)
    requires i < Nones(a)
  {
    |b| == |a| && forall p | 0 <= p < |a| :: b[p] == if p < SlotAt(a, i) then None else a[p]
  }

  datatype CheckResult = Good | Corrupt | Bad

  /** Slot `p` of the block holds what was available, or the next missing transaction. */
  ghost predicate FilledAt(a: Slots, missing: seq<Tx>, block: seq<Tx>, p: nat)
    requires p < |a| && p < |block|
  {
    if a[p].Some? then block[p] == a[p].value
    else Nones(a[..p]) < |missing| && block[p] == missing[Nones(a[..p])]
  }

  ghost predicate IsFilled(a: Slots, missing: seq<Tx>, block: seq<Tx>) {
    |block| == |a| && forall p | 0 <= p < |a| :: FilledAt(a, missing, block, p)
  }

  /** `indexes` lists the empty slots. */
  ghost predicate Asks(a: Slots, indexes: seq<nat>) {
    |indexes| == Nones(a) && forall i | 0 <= i < |indexes| :: IsSlot(a, i, indexes[i])
  }

  lemma AsksInOrder(a: Slots, indexes: seq<nat>)
    requires Asks(a, indexes)
    ensures Increasing(indexes) && forall i | 0 <= i < |indexes| :: indexes[i] < |a|
  {
    hide Nones;
    forall i, j | 0 <= i < j < |indexes| ensures indexes[i] < indexes[j] {
      SlotsInOrder(a, i, indexes[i], j, indexes[j]);
    }
  }

  // ---------------------------------------------------------------- reconstruction

  /** Everything available is what the block has there. */
  ghost predicate Agrees(a: Slots, block: seq<Tx>) {
    |a| == |block| && forall p | 0 <= p < |a| && a[p].Some? :: a[p].value == block[p]
  }

  /** Answering a request for the empty slots of slots that agree with the block rebuilds the block. */
  lemma AnswerRebuilds(a: Slots, indexes: seq<nat>, answer: seq<Tx>, original: seq<Tx>, block: seq<Tx>)
    requires Agrees(a, original) && Asks(a, indexes)
    requires |answer| == |indexes| && forall i | 0 <= i < |indexes| :: indexes[i] < |original| && answer[i] == original[indexes[i]]
    requires IsFilled(a, answer, block)
    ensures block == original
  {
    hide Nones;
    forall p | 0 <= p < |a| ensures block[p] == original[p] {
      assert FilledAt(a, answer, block, p);
      if a[p].None? {
        var i := Nones(a[..p]);
        SlotsInOrder(a, i, p, i, indexes[i]);
      }
    }
  }

  /** `m` describes `block`: its prefilled transactions are where they belong, and the short ids are those
      of the other transactions in order. */
  ghost predicate Describes(m: Message, sid: ShortId, block: seq<Tx>) {
    forall base | HoldsPrefilled(m, base) ::
      && Agrees(base, block)
      && forall i, q: nat | 0 <= i < |m.shortIds| && IsSlot(base, i, q) :: m.shortIds[i] == sid(block[q].witnessId)
  }

  /** No candidate is mistaken for a transaction of the block. */
  ghost predicate NoMistake(sid: ShortId, candidates: Candidates, block: seq<Tx>) {
    forall c, p | 0 <= c < |candidates| && 0 <= p < |block| && sid(candidates[c].0) == sid(block[p].witnessId) ::
      candidates[c].1 == block[p]
  }

  lemma {:induction false} LookIsRight(sid: ShortId, pool: Candidates, block: seq<Tx>, p: nat)
    requires NoMistake(sid, pool, block) && p < |block|
    ensures var s := Look(sid, pool, sid(block[p].witnessId)); s.Have? ==> s.tx == block[p]
  {
    if pool != [] {
      LookIsRight(sid, pool[..|pool| - 1], block, p);
    }
  }

  lemma {:induction false} LookExtraIsRight(sid: ShortId, start: Slot, extra: Candidates, block: seq<Tx>, p: nat)
    requires NoMistake(sid, extra, block) && p < |block| && (start.Have? ==> start.tx == block[p])
    ensures var s := LookExtra(sid, start, extra, sid(block[p].witnessId)); s.Have? ==> s.tx == block[p]
  {
    if extra != [] {
      LookExtraIsRight(sid, start, extra[..|extra| - 1], block, p);
    }
  }

  /** Without mistaken candidates, whatever `InitData` makes available agrees with the block. */
  lemma InitialisedAgrees(m: Message, sid: ShortId, pool: Candidates, extra: Candidates, base: Slots, a: Slots, j: nat, k: nat,
                          block: seq<Tx>)
    requires Initialised(m, sid, pool, extra, base, a, j, k) && Describes(m, sid, block)
    requires NoMistake(sid, pool, block) && NoMistake(sid, extra, block)
    ensures Agrees(a, block)
  {
    hide Nones, HoldsPrefilled, Look, LookExtra;
    forall p | 0 <= p < |a| && a[p].Some? ensures a[p].value == block[p] {
      if base[p].None? {
        var i := NumberOf(base, p);
        PrefilledSizes(m, base);
        var id := m.shortIds[i];
        assert IsSlot(base, i, p);
        LookIsRight(sid, pool[..j], block, p);
        LookExtraIsRight(sid, Look(sid, pool[..j], id), extra[..k], block, p);
      }
    }
  }

  /** A transaction of the block that the pool holds under its own short id, alone, is never asked for,
      unless an extra transaction contradicts it. */
  lemma {:induction false} PoolIsUsed(m: Message, sid: ShortId, pool: Candidates, extra: Candidates, base: Slots, a: Slots,
                                      j: nat, k: nat, i: nat, q: nat, c: nat)
    requires Initialised(m, sid, pool, extra, base, a, j, k) && i < |m.shortIds| && IsSlot(base, i, q)
    requires c < |pool| && forall d | 0 <= d < |pool| :: sid(pool[d].0) == m.shortIds[i] <==> d == c
    requires forall e | 0 <= e < |extra| && sid(extra[e].0) == m.shortIds[i] :: extra[e].1.witnessId == pool[c].1.witnessId
    ensures a[q] == Some(pool[c].1)
  {
    hide Nones, HoldsPrefilled;
    var id := m.shortIds[i];
    LookOnly(sid, pool, j, id, c);
    assert Look(sid, pool[..j], id) == Have(pool[c].1);
    LookSame(sid, Have(pool[c].1), extra[..k], id);
  }

  /** Candidate `i` is the only one with this short id. */
  ghost predicate Lone(sid: ShortId, pool: Candidates, id: nat, i: nat)
    requires i < |pool|
  {
    sid(pool[i].0) == id && forall d: nat | d < |pool| && d != i :: sid(pool[d].0) != id
  }

  /** In the memory pool a transaction is found if and only if it is the only one with the short id. */
  lemma {:induction false} LookExactly(sid: ShortId, pool: Candidates, id: nat)
    ensures Look(sid, pool, id).Empty? <==> forall i: nat | i < |pool| :: sid(pool[i].0) != id
    ensures Look(sid, pool, id).Have? <==> exists i: nat | i < |pool| :: Lone(sid, pool, id, i)
    ensures forall i: nat | i < |pool| && Lone(sid, pool, id, i) :: Look(sid, pool, id) == Have(pool[i].1)
  {
    if pool != [] {
      var n := |pool| - 1;
      var rest := pool[..n];
      LookExactly(sid, rest, id);
      forall i: nat | i < n && Lone(sid, rest, id, i) && sid(pool[n].0) != id ensures Lone(sid, pool, id, i) {
      }
      forall i: nat | i < n && Lone(sid, pool, id, i) ensures Lone(sid, rest, id, i) {
        assert forall d: nat | d < n :: rest[d] == pool[d];
      }
      if sid(pool[n].0) == id && Look(sid, rest, id).Empty? {
        assert Lone(sid, pool, id, n);
      }
    }
  }

  /** An extra transaction is used if the pool has none, the first of those with the short id; any other with
      another witness hash makes a clash, also with the one from the pool. */
  lemma {:induction false} ExtraExactly(sid: ShortId, s: Slot, extra: Candidates, id: nat)
    ensures s.Clash? ==> LookExtra(sid, s, extra, id) == Clash
    ensures s.Have? ==> LookExtra(sid, s, extra, id) == if AllSame(sid, extra, id, s.tx) then s else Clash
    ensures s.Empty? && (forall e: nat | e < |extra| :: sid(extra[e].0) != id) ==> LookExtra(sid, s, extra, id) == Empty
    ensures forall f: nat | s.Empty? && f < |extra| && sid(extra[f].0) == id && (forall e: nat | e < f :: sid(extra[e].0) != id) ::
              LookExtra(sid, s, extra, id) == if AllSame(sid, extra, id, extra[f].1) then Have(extra[f].1) else Clash
  {
    if extra != [] {
      var n := |extra| - 1;
      var rest := extra[..n];
      ExtraExactly(sid, s, rest, id);
      forall t ensures AllSame(sid, extra, id, t) <==> AllSame(sid, rest, id, t) && (sid(extra[n].0) == id ==> extra[n].1.witnessId == t.witnessId) {
        SameButLast(sid, extra, id, t);
      }
      forall f: nat | s.Empty? && f < |extra| && sid(extra[f].0) == id && (forall e: nat | e < f :: sid(extra[e].0) != id)
        ensures LookExtra(sid, s, extra, id) == if AllSame(sid, extra, id, extra[f].1) then Have(extra[f].1) else Clash
      {
        if f < n {
          assert rest[f] == extra[f] && forall e: nat | e < f :: rest[e] == extra[e];
        } else {
          assert forall e: nat | e < n :: rest[e] == extra[e];
        }
      }
    }
  }

  ghost predicate AllSame(sid: ShortId, extra: Candidates, id: nat, t: Tx) {
    forall e: nat | e < |extra| && sid(extra[e].0) == id :: extra[e].1.witnessId == t.witnessId
  }

  lemma SameButLast(sid: ShortId, extra: Candidates, id: nat, t: Tx)
    requires extra != []
    ensures var n := |extra| - 1;
            AllSame(sid, extra, id, t) <==> AllSame(sid, extra[..n], id, t) && (sid(extra[n].0) == id ==> extra[n].1.witnessId == t.witnessId)
  {
    var n := |extra| - 1;
    assert forall e: nat | e < n :: extra[..n][e] == extra[e];
  }

  lemma {:induction false} LookOnly(sid: ShortId, pool: Candidates, j: nat, id: nat, c: nat)
    requires c < |pool| && j <= |pool| && forall d | 0 <= d < |pool| :: sid(pool[d].0) == id <==> d == c
    ensures Look(sid, pool[..j], id) == if c < j then Have(pool[c].1) else Empty
  {
    if j > 0 {
      LookOnly(sid, pool, j - 1, id, c);
      assert pool[..j][..j - 1] == pool[..j - 1];
    }
  }

  lemma {:induction false} LookSame(sid: ShortId, s: Slot, extra: Candidates, id: nat)
    requires s.Have? && forall e | 0 <= e < |extra| && sid(extra[e].0) == id :: extra[e].1.witnessId == s.tx.witnessId
    ensures LookExtra(sid, s, extra, id) == s
  {
    if extra != [] {
      LookSame(sid, s, extra[..|extra| - 1], id);
    }
  }

  // ---------------------------------------------------------------- the sender

  /** `CBlockHeaderAndShortTxIDs` for a block: the coinbase prefilled, short ids for the rest. */
  method MakeMessage(block: seq<Tx>, sid: ShortId) returns (m: Message)
    requires block != []
    ensures |m.shortIds| + |m.prefilled| == |block| && (!block[0].isNull ==> PrefilledOk(m))
    ensures !m.headerNull && m.prefilled != [] && Describes(m, sid, block)
    ensures forall i | 0 <= i < |m.shortIds| :: m.shortIds[i] == sid(block[i + 1].witnessId)
  {
    var ids: seq<nat> := [];
    for i := 1 to |block|
      invariant |ids| == i - 1 && forall k | 0 <= k < |ids| :: ids[k] == sid(block[k + 1].witnessId)
    {
      ids := ids + [sid(block[i].witnessId)];
    }
    m := Message(false, ids, [Prefilled(0, block[0])]);
    CoinbaseFirst(m, sid, block);
  }

  lemma CoinbaseFirst(m: Message, sid: ShortId, block: seq<Tx>)
    requires block != [] && |m.shortIds| == |block| - 1 && m.prefilled == [Prefilled(0, block[0])]
    requires forall i | 0 <= i < |m.shortIds| :: m.shortIds[i] == sid(block[i + 1].witnessId)
    ensures (!block[0].isNull ==> PrefilledOk(m)) && Describes(m, sid, block)
  {
    assert Last(m.prefilled, 1) == 0;
    forall base: Slots | HoldsPrefilled(m, base)
      ensures Agrees(base, block)
      ensures forall i, q: nat | 0 <= i < |m.shortIds| && IsSlot(base, i, q) :: m.shortIds[i] == sid(block[q].witnessId)
    {
      assert base[0] == Some(block[0]);
      assert forall p | 0 < p < |base| :: base[p].None?;
      forall i, q: nat | 0 <= i < |m.shortIds| && IsSlot(base, i, q) ensures q == i + 1 {
        OnlyFirst(base, q);
      }
    }
  }

  lemma {:induction false} OnlyFirst(a: Slots, q: nat)
    requires 0 < q <= |a| && a[0].Some? && forall p | 0 < p < |a| :: a[p].None?
    ensures Nones(a[..q]) == q - 1
  {
    NonesNext(a, q - 1);
    if q > 1 {
      OnlyFirst(a, q - 1);
    } else {
      assert a[..0] == [];
    }
  }

  /** A whole exchange: the block is announced, the missing indexes are sent in differential form, and
      the answer rebuilds the sender's block exactly. */
  method Exchange(block: seq<Tx>, sid: ShortId, pool: Candidates, extra: Candidates, crowded: nat -> bool, check: seq<Tx> -> CheckResult)
    returns (status: Status, rebuilt: seq<Tx>)
    requires 0 < |block| <= MAX16 + 1 && forall p | 0 <= p < |block| :: !block[p].isNull
    requires NoMistake(sid, pool, block) && NoMistake(sid, extra, block)
    ensures status != Invalid && status != NeverReturns
    ensures status == Ok ==> rebuilt == block
    ensures (check(block) == Good && (forall i: nat | i < |block| :: !crowded(i)) &&
             forall i, j | 0 < i < j < |block| :: sid(block[i].witnessId) != sid(block[j].witnessId)) ==> status == Ok
  {
    hide Nones, HoldsPrefilled, Describes, NoMistake, Initialised, PrefilledOk, Scans;
    var m := MakeMessage(block, sid);
    var receiver := new PartiallyDownloadedBlock();
    status := receiver.InitData(m, sid, pool, extra, crowded);
    rebuilt := [];
    if status != Ok {
      return;
    }
    ghost var base, slots, j, k :| Scans(m, sid, pool, extra, base, slots, receiver.txnAvailable, j, k) &&
      receiver.mempoolCount == FoundCount(sid, slots, pool, extra, |base|, j, k);
    ScansAreRight(m, sid, pool, extra, base, slots, receiver.txnAvailable, j, k);
    InitialisedAgrees(m, sid, pool, extra, base, receiver.txnAvailable, j, k, block);
    var indexes := receiver.MissingIndexes();
    AsksInOrder(receiver.txnAvailable, indexes);
    var request := SendIndexes(indexes);
    var answer: seq<Tx> := [];
    for i := 0 to |request.value|
      invariant |answer| == i && forall p | 0 <= p < i :: answer[p] == block[indexes[p]]
    {
      answer := answer + [block[request.value[i]]];
    }
    ghost var a := receiver.txnAvailable;
    status, rebuilt := receiver.FillBlock(answer, check);
    AnswerRebuilds(a, indexes, answer, block, rebuilt);
  }

  lemma PrefilledSizes(m: Message, a: Slots)
    requires HoldsPrefilled(m, a)
    ensures |a| == |m.shortIds| + |m.prefilled| && Nones(a) == |m.shortIds|
    ensures PrefilledOk(m) ==> EmptyAbove(a)
  {
    hide Nones, Last;
    if PrefilledOk(m) {
      forall p | SIZE16 <= p < |a| ensures a[p].None? {
        if a[p].Some? {
          var k :| 0 < k <= |m.prefilled| && Last(m.prefilled, k) == p;
          FitsLow(m, k);
        }
      }
    }
  }

  lemma FitsLow(m: Message, k: nat)
    requires PrefilledOk(m) && 0 < k <= |m.prefilled|
    ensures Last(m.prefilled, k) <= MAX16
  {
    assert FitsAt(m, k);
  }

  lemma CountIs(base: Slots, a: Slots, have: seq<bool>, count: int, known: seq<Slot>)
    requires Scanned(base, a, have, count, known)
    ensures count == |HaveSlots(known)| && |base| == |a| == |known| && forall p | 0 <= p < |a| :: a[p] == Held(base[p], known[p])
  {
  }

  /** With no more transactions than 16 bits can tell, `InitData` gives each short id's own slot what was
      found for that id, and leaves the prefilled transactions alone. */
  lemma ScansAreRight(m: Message, sid: ShortId, pool: Candidates, extra: Candidates, base: Slots, slots: map<nat, nat>,
                      a: Slots, j: nat, k: nat)
    requires Scans(m, sid, pool, extra, base, slots, a, j, k) && |m.shortIds| + |m.prefilled| <= SIZE16
    ensures Initialised(m, sid, pool, extra, base, a, j, k)
  {
    hide HoldsPrefilled, Mapped, OwnSlots, Slotted, Nones, Look, LookExtra, Seen, SeenExtra, NoDuplicates;
    PrefilledSizes(m, base);
    AllWithin(base, m.shortIds, slots);
    OwnIsInjective(base, slots);
    MappedKeys(base, m.shortIds, slots);
    var first := Seen(sid, slots, pool[..j], |base|);
    var known := SeenExtra(sid, slots, first, extra[..k]);
    forall p | 0 <= p < |base| && p !in slots.Values ensures first[p] == known[p] == Empty {
      SeenElsewhere(sid, slots, pool[..j], |base|, p);
      SeenExtraElsewhere(sid, slots, first, extra[..k], p);
    }
    forall i | 0 <= i < |m.shortIds|
      ensures m.shortIds[i] in slots
      ensures first[slots[m.shortIds[i]]] == Look(sid, pool[..j], m.shortIds[i])
      ensures known[slots[m.shortIds[i]]] == Found(sid, pool, extra, j, k, m.shortIds[i])
      ensures j < |pool| ==> Look(sid, pool[..j], m.shortIds[i]).Have?
      ensures k < |extra| ==> Found(sid, pool, extra, j, k, m.shortIds[i]).Have?
    {
      var id := m.shortIds[i];
      SeenIsLook(sid, slots, pool[..j], |base|, id);
      SeenExtraIsLook(sid, slots, first, extra[..k], id);
      if j < |pool| {
        AllFound(slots, first, id);
      }
      if k < |extra| {
        AllFound(slots, known, id);
      }
    }
    forall p | 0 <= p < |base| && base[p].Some? ensures a[p] == base[p] {
      NotOwn(base, slots, p);
    }
    forall i, q: nat | 0 <= i < |m.shortIds| && IsSlot(base, i, q)
      ensures a[q] == Offer(Found(sid, pool, extra, j, k, m.shortIds[i]))
    {
      SlottedAt(base, m.shortIds, slots, i, q);
    }
  }

  lemma OwnIsInjective(a: Slots, slots: map<nat, nat>)
    requires OwnSlots(a, slots)
    ensures Injective(slots, |a|)
  {
  }

  lemma NotOwn(a: Slots, slots: map<nat, nat>, p: nat)
    requires OwnSlots(a, slots) && p < |a| && a[p].Some?
    ensures p !in slots.Values
  {
  }

  lemma MappedKeys(a: Slots, ids: seq<nat>, slots: map<nat, nat>)
    requires Mapped(a, ids, slots)
    ensures NoDuplicates(ids) && forall i | 0 <= i < |ids| :: ids[i] in slots
  {
  }

  lemma SlottedAt(a: Slots, ids: seq<nat>, slots: map<nat, nat>, i: nat, q: nat)
    requires Slotted(a, ids, slots) && i < |ids| && IsSlot(a, i, q)
    ensures ids[i] in slots && slots[ids[i]] == q && q < |a| && a[q].None?
  {
    hide Nones;
    SlotsInOrder(a, i, q, i, slots[ids[i]]);
  }

  // ---------------------------------------------------------------- messages of more than 65536 transactions

  /** A block of 65537 transactions announced with its coinbase prefilled: the last short id leads to the slot
      of the coinbase. */
  lemma LastIdMeetsCoinbase(m: Message, base: Slots, slots: map<nat, nat>)
    requires Acceptable(m) && |m.prefilled| == 1 && m.prefilled[0].index == 0 && |m.shortIds| == SIZE16
    requires HoldsPrefilled(m, base) && Mapped(base, m.shortIds, slots)
    ensures m.shortIds[MAX16] in slots && slots[m.shortIds[MAX16]] == 0 && base[0] == Some(m.prefilled[0].tx)
  {
    hide Nones, Mapped;
    PrefilledSizes(m, base);
    assert Last(m.prefilled, 1) == 0;
    var i := LastWraps(base, m.shortIds, slots);
  }

  /** 65536 prefilled transactions at the positions from 0 on, and one short id: acceptable, and `InitData`
      never returns. */
  lemma SearchForever(t: Tx, id: nat)
    requires !t.isNull
    ensures var m := Message(false, [id], seq(SIZE16, _ => Prefilled(0, t)));
            Acceptable(m) && Endless(m)
  {
    var pre := seq(SIZE16, _ => Prefilled(0, t));
    var m := Message(false, [id], pre);
    forall k | 0 < k <= |pre| ensures FitsAt(m, k) {
      LastOfZeros(pre, k);
    }
  }

  lemma {:induction false} LastOfZeros(pre: seq<Prefilled>, k: nat)
    requires k <= |pre| && forall i | 0 <= i < |pre| :: pre[i].index == 0
    ensures Last(pre, k) == k - 1
  {
    if k > 0 {
      LastOfZeros(pre, k - 1);
    }
  }
}
