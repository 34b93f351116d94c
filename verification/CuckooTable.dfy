/** The state of the cuckoo cache (src/cuckoocache.h) and what its elementary steps keep. */
module CuckooTable {
  import opened Common

  type Hash32 = x: nat | x < 0x1_0000_0000

  type Hasher<!E> = (nat, E) -> Hash32

  lemma ScaleDown(h: nat, size: nat)
    requires h < 0x1_0000_0000 && size > 0
    ensures h * size / 0x1_0000_0000 < size
  {
    var slack := 0x1_0000_0000 - h;
    assert h * size + slack * size == 0x1_0000_0000 * size;
    assert slack * size > 0;
  }

  /** One of the eight slots of an element: a 32-bit hash scaled to the size of the table. */
  function Loc<E>(hash: Hasher<E>, size: nat, e: E, k: nat): (r: nat)
    requires size > 0
    ensures r < size && r * 0x1_0000_0000 <= hash(k, e) * size < (r + 1) * 0x1_0000_0000
  {
    var h := hash(k, e);
    ScaleDown(h, size);
    h * size / 0x1_0000_0000
  }

  function Locs<E>(hash: Hasher<E>, size: nat, e: E): (r: seq<nat>)
    requires size > 0
    ensures |r| == 8 && forall k | 0 <= k < 8 :: r[k] < size
  {
    seq(8, k requires 0 <= k < 8 => Loc(hash, size, e, k))
  }

  /** What identifies a cache: its hash functions and the value of an unused slot. */
  datatype Config<!E> = Config(hash: Hasher<E>, nothing: E)

  /** A table with, for each slot, whether it may be overwritten and whether it is of the current epoch. */
  datatype State<E> = State(table: seq<E>, collected: seq<bool>, epoch: seq<bool>)

  ghost predicate Shaped<E>(s: State<E>) {
    |s.table| == |s.collected| == |s.epoch| > 0
  }

  /** Every kept element, and every other element that is not the value of an unused slot, is in one of
      its eight slots. */
  ghost predicate Sits<E(!new)>(c: Config<E>, s: State<E>)
    requires Shaped(s)
  {
    forall i | 0 <= i < |s.table| :: (!s.collected[i] || s.table[i] != c.nothing) ==> i in Locs(c.hash, |s.table|, s.table[i])
  }

  ghost predicate StoredOnce<E(!new)>(c: Config<E>, s: State<E>) {
    forall i, j | 0 <= i < j < |s.table| :: s.table[i] == s.table[j] ==> s.table[i] == c.nothing
  }

  ghost predicate Ok<E(!new)>(c: Config<E>, s: State<E>) {
    Shaped(s) && Sits(c, s) && StoredOnce(c, s)
  }

  /** The slots that are kept, and those of them in the current epoch. */
  ghost function KeptSlots<E>(s: State<E>): set<nat>
    requires Shaped(s)
  {
    set i: nat | i < |s.table| && !s.collected[i]
  }

  ghost function LiveSlots<E>(s: State<E>): set<nat>
    requires Shaped(s)
  {
    set i: nat | i < |s.table| && !s.collected[i] && s.epoch[i]
  }

  /** The slots of the current epoch below `i`, as a count up to `i` sees them. */
  ghost function LiveUpTo<E>(s: State<E>, i: nat): set<nat>
    requires Shaped(s) && i <= |s.table|
  {
    set k: nat | k < i && !s.collected[k] && s.epoch[k]
  }

  lemma LiveNext<E>(s: State<E>, i: nat)
    requires Shaped(s) && i < |s.table|
    ensures |LiveUpTo(s, i + 1)| == |LiveUpTo(s, i)| + if s.epoch[i] && !s.collected[i] then 1 else 0
  {
    WithOrWithout(LiveUpTo(s, i), LiveUpTo(s, i + 1), i);
  }

  lemma LiveEnds<E>(s: State<E>)
    requires Shaped(s)
    ensures LiveUpTo(s, 0) == {} && LiveUpTo(s, |s.table|) == LiveSlots(s)
  {
  }

  /** The elements that are kept. */
  ghost function Kept<E>(s: State<E>): set<E>
    requires Shaped(s)
  {
    set i | i in KeptSlots(s) :: s.table[i]
  }

  /** Those of them that are of the current epoch. */
  ghost function Live<E>(s: State<E>): set<E>
    requires Shaped(s)
  {
    set i | i in LiveSlots(s) :: s.table[i]
  }

  // ---------------------------------------------------------------- steps of an insertion

  /** While an insertion is under way it holds element `e` of epoch `le` in hand: nowhere in the table. */
  ghost predicate InHand<E(!new)>(c: Config<E>, s: State<E>, e: E) {
    Ok(c, s) && (e != c.nothing ==> e !in s.table)
  }

  /** The state after writing `e` with its epoch to a slot and keeping it. */
  function Write<E>(s: State<E>, loc: nat, e: E, le: bool): State<E>
    requires loc < |s.table| == |s.collected| == |s.epoch|
  {
    State(s.table[loc := e], s.collected[loc := false], s.epoch[loc := le])
  }

  lemma WriteKeeps<E(!new)>(c: Config<E>, s: State<E>, loc: nat, e: E, le: bool)
    requires InHand(c, s, e) && loc < |s.table| && loc in Locs(c.hash, |s.table|, e)
    ensures Ok(c, Write(s, loc, e, le))
    ensures s.table[loc] != c.nothing && s.table[loc] != e ==> s.table[loc] !in Write(s, loc, e, le).table
  {
    hide Locs;
    var t := Write(s, loc, e, le);
  }

  ghost function OneIf<E>(b: bool, e: E): set<E> {
    if b then {e} else {}
  }

  lemma LiveAfter<E>(s: State<E>, loc: nat, e: E, le: bool)
    requires Shaped(s) && loc < |s.table|
    ensures Shaped(Write(s, loc, e, le))
    ensures Live(Write(s, loc, e, le)) + OneIf(!s.collected[loc] && s.epoch[loc], s.table[loc]) == Live(s) + OneIf(le, e)
  {
    var t := Write(s, loc, e, le);
    forall x | x in Live(s) ensures x in Live(t) + OneIf(!s.collected[loc] && s.epoch[loc], s.table[loc]) {
      var i :| i in LiveSlots(s) && s.table[i] == x;
      assert i != loc ==> i in LiveSlots(t) && t.table[i] == x;
    }
    forall x | x in Live(t) ensures x in Live(s) + OneIf(le, e) {
      var i :| i in LiveSlots(t) && t.table[i] == x;
      assert i != loc ==> i in LiveSlots(s) && s.table[i] == x;
    }
    if le {
      assert loc in LiveSlots(t) && t.table[loc] == e;
    }
    if !s.collected[loc] && s.epoch[loc] {
      assert loc in LiveSlots(s);
    }
  }

  /** A kept slot: the element there comes into hand, and nothing else changes hands. */
  lemma SwapKeeps<E(!new)>(c: Config<E>, s: State<E>, loc: nat, e: E, le: bool)
    requires InHand(c, s, e) && loc < |s.table| && loc in Locs(c.hash, |s.table|, e) && !s.collected[loc]
    ensures InHand(c, Write(s, loc, e, le), s.table[loc])
    ensures Kept(Write(s, loc, e, le)) + {s.table[loc]} == Kept(s) + {e}
    ensures Live(Write(s, loc, e, le)) + OneIf(s.epoch[loc], s.table[loc]) == Live(s) + OneIf(le, e)
    ensures |LiveSlots(Write(s, loc, e, le))| + (if s.epoch[loc] then 1 else 0) == |LiveSlots(s)| + if le then 1 else 0
  {
    hide Locs;
    WriteKeeps(c, s, loc, e, le);
    var t := Write(s, loc, e, le);
    WithOrWithout(LiveSlots(s), LiveSlots(t), loc);
    assert s.table[loc] == e ==> e == c.nothing;
    KeptAfter(s, loc, e, le);
    LiveAfter(s, loc, e, le);
  }

  lemma KeptAfter<E>(s: State<E>, loc: nat, e: E, le: bool)
    requires Shaped(s) && loc < |s.table|
    ensures Shaped(Write(s, loc, e, le))
    ensures !s.collected[loc] ==> Kept(Write(s, loc, e, le)) + {s.table[loc]} == Kept(s) + {e}
    ensures s.collected[loc] ==> Kept(Write(s, loc, e, le)) == Kept(s) + {e}
  {
    var t := Write(s, loc, e, le);
    forall x | x in Kept(s) ensures x in Kept(t) + {s.table[loc]} && (s.collected[loc] ==> x in Kept(t)) {
      var i :| i in KeptSlots(s) && s.table[i] == x;
      assert i != loc ==> i in KeptSlots(t) && t.table[i] == x;
    }
    forall x | x in Kept(t) ensures x in Kept(s) + {e} {
      var i :| i in KeptSlots(t) && t.table[i] == x;
      assert i != loc ==> i in KeptSlots(s) && s.table[i] == x;
    }
    assert loc in KeptSlots(t) && t.table[loc] == e;
  }

  /** A slot that may be overwritten: the element in hand is kept there. */
  lemma PlaceKeeps<E(!new)>(c: Config<E>, s: State<E>, loc: nat, e: E, le: bool)
    requires InHand(c, s, e) && loc < |s.table| && loc in Locs(c.hash, |s.table|, e) && s.collected[loc]
    ensures Ok(c, Write(s, loc, e, le))
    ensures Kept(Write(s, loc, e, le)) == Kept(s) + {e}
    ensures Live(Write(s, loc, e, le)) == Live(s) + OneIf(le, e)
    ensures |LiveSlots(Write(s, loc, e, le))| == |LiveSlots(s)| + if le then 1 else 0
  {
    hide Locs;
    WriteKeeps(c, s, loc, e, le);
    WithOrWithout(LiveSlots(s), LiveSlots(Write(s, loc, e, le)), loc);
    KeptAfter(s, loc, e, le);
    LiveAfter(s, loc, e, le);
  }

  /** An element found in the table is kept again in its place. */
  lemma RenewKeeps<E(!new)>(c: Config<E>, s: State<E>, loc: nat, e: E)
    requires Ok(c, s) && loc < |s.table| && loc in Locs(c.hash, |s.table|, e) && s.table[loc] == e
    ensures Ok(c, Write(s, loc, e, true)) && Write(s, loc, e, true).table == s.table
    ensures Kept(Write(s, loc, e, true)) == Kept(s) + {e}
    ensures Live(Write(s, loc, e, true)) == Live(s) + {e}
    ensures |LiveSlots(Write(s, loc, e, true))| <= |LiveSlots(s)| + 1
  {
    hide Locs;
    var t := Write(s, loc, e, true);
    assert t.table == s.table;
    WithOrWithout(LiveSlots(s), LiveSlots(t), loc);
    KeptAfter(s, loc, e, true);
    LiveAfter(s, loc, e, true);
    assert e in Live(t) by { assert loc in LiveSlots(t); }
    assert !s.collected[loc] ==> e in Kept(s) && e in Kept(t) by {
      assert !s.collected[loc] ==> loc in KeptSlots(s);
      assert loc in KeptSlots(t);
    }
  }

  /** One of the eight slots of `e` holds it. */
  ghost predicate AtLocs<E>(c: Config<E>, table: seq<E>, e: E)
    requires |table| > 0
  {
    exists k | 0 <= k < 8 :: table[Locs(c.hash, |table|, e)[k]] == e
  }

  /** Looking at the eight slots is enough to know whether an element is stored. */
  lemma FoundAtLocs<E(!new)>(c: Config<E>, s: State<E>, e: E)
    requires Ok(c, s) && e != c.nothing
    ensures e in s.table <==> AtLocs(c, s.table, e)
  {
    hide Locs;
    var locs := Locs(c.hash, |s.table|, e);
    if e in s.table {
      var i :| 0 <= i < |s.table| && s.table[i] == e;
      assert i in locs;
    }
  }

  // ---------------------------------------------------------------- ageing

  /** Moving to a new epoch: the old epoch may be overwritten, the current one becomes old. */
  ghost function Age<E>(s: State<E>): State<E>
    requires Shaped(s)
  {
    State(s.table, seq(|s.table|, i requires 0 <= i < |s.table| => s.collected[i] || !s.epoch[i]), seq(|s.table|, _ => false))
  }

  lemma AgeKeeps<E(!new)>(c: Config<E>, s: State<E>)
    requires Ok(c, s)
    ensures Ok(c, Age(s)) && LiveSlots(Age(s)) == {}
    ensures KeptSlots(Age(s)) == LiveSlots(s)
  {
    hide Locs;
  }

  /** Marking a slot as discardable. */
  function Discard<E>(s: State<E>, loc: nat): State<E>
    requires loc < |s.table| == |s.collected| == |s.epoch|
  {
    State(s.table, s.collected[loc := true], s.epoch)
  }

  lemma DiscardKeeps<E(!new)>(c: Config<E>, s: State<E>, loc: nat)
    requires Ok(c, s) && loc < |s.table|
    ensures Ok(c, Discard(s, loc)) && |LiveSlots(Discard(s, loc))| <= |LiveSlots(s)|
  {
    hide Locs;
    WithOrWithout(LiveSlots(s), LiveSlots(Discard(s, loc)), loc);
  }

  // ---------------------------------------------------------------- the slot of the next exchange

  /** The position of the first occurrence, or the length. */
  function IndexOf(s: seq<nat>, x: int): (k: nat)
    ensures k <= |s| && (k < |s| <==> x in s) && (k < |s| ==> s[k] == x)
  {
    if s == [] || s[0] == x then 0 else 1 + IndexOf(s[1..], x)
  }

  /** The one of an element's slots that it is exchanged into: the one after the slot last written to. */
  function NextSlot(locs: seq<nat>, last: int): (r: nat)
    requires |locs| == 8
    ensures r in locs
  {
    locs[(1 + IndexOf(locs, last)) % 8]
  }

  /** When no slot has been written to yet, or none of these, the second of them is next. */
  lemma SecondSlotFirst(locs: seq<nat>, last: int)
    requires |locs| == 8 && last !in locs
    ensures NextSlot(locs, last) == locs[1]
  {
  }

  // ---------------------------------------------------------------- the exchanges of an insertion

  /** The table, the element in hand with its epoch, and the slot last written to. */
  datatype Progress<E> = Progress(state: State<E>, e: E, le: bool, last: int)

  /** An insertion of `e` into `s` after `n` exchanges. */
  ghost function Exchanged<E(!new)>(c: Config<E>, s: State<E>, e: E, n: nat): (p: Progress<E>)
    requires Shaped(s)
    ensures Shaped(p.state) && |p.state.table| == |s.table|
  {
    if n == 0 then Progress(s, e, true, -1) else
    var p := Exchanged(c, s, e, n - 1);
    var next := NextSlot(Locs(c.hash, |s.table|, p.e), p.last);
    Progress(Write(p.state, next, p.e, p.le), p.state.table[next], p.state.epoch[next], next)
  }

  /** One of the eight slots of `e` may be overwritten. */
  ghost predicate HasOpen<E(!new)>(c: Config<E>, s: State<E>, e: E)
    requires Shaped(s)
  {
    exists k | 0 <= k < 8 :: s.collected[Locs(c.hash, |s.table|, e)[k]]
  }

  /** None of the elements that come into hand in the first `n` exchanges has an open slot. */
  ghost predicate Crowded<E(!new)>(c: Config<E>, s: State<E>, e: E, n: nat)
    requires Shaped(s)
  {
    forall i: nat | i < n :: !HasOpen(c, s, Exchanged(c, s, e, i).e)
  }

  /** Exchanges among kept slots: nothing but the element in hand leaves the table, and no flag changes. */
  lemma {:induction false} ExchangesKeep<E(!new)>(c: Config<E>, s: State<E>, e: E, n: nat)
    requires InHand(c, s, e) && Crowded(c, s, e, n)
    ensures var p := Exchanged(c, s, e, n);
            && p.state.collected == s.collected && InHand(c, p.state, p.e)
            && Kept(p.state) + {p.e} == Kept(s) + {e}
            && Live(p.state) + OneIf(p.le, p.e) == Live(s) + {e}
            && |LiveSlots(p.state)| + (if p.le then 1 else 0) == |LiveSlots(s)| + 1
  {
    hide Locs, NextSlot, Kept, Live, LiveSlots, Sits, StoredOnce;
    if n > 0 {
      ExchangesKeep(c, s, e, n - 1);
      var p := Exchanged(c, s, e, n - 1);
      var locs := Locs(c.hash, |s.table|, p.e);
      var next := NextSlot(locs, p.last);
      assert !s.collected[next] by {
        assert !HasOpen(c, s, p.e);
        var k :| 0 <= k < 8 && locs[k] == next;
      }
      SwapKeeps(c, p.state, next, p.e, p.le);
      assert s.collected[next := false] == s.collected;
    }
  }

  /** The first exchange is with the second slot. */
  lemma FirstExchange<E(!new)>(c: Config<E>, s: State<E>, e: E)
    requires Shaped(s)
    ensures var p := Exchanged(c, s, e, 1);
            var second := Locs(c.hash, |s.table|, e)[1];
            && p.last == second && p.e == s.table[second] && p.state == Write(s, second, e, true)
  {
    hide Locs;
    SecondSlotFirst(Locs(c.hash, |s.table|, e), -1);
    assert Exchanged(c, s, e, 0) == Progress(s, e, true, -1);
  }

  /** Slot `loc` is the first open one of the eight of `e`. */
  ghost predicate FirstOpen<E(!new)>(c: Config<E>, s: State<E>, e: E, loc: nat)
    requires Shaped(s)
  {
    var locs := Locs(c.hash, |s.table|, e);
    exists k | 0 <= k < 8 :: locs[k] == loc && s.collected[loc] && forall i | 0 <= i < k :: !s.collected[locs[i]]
  }

  /** An insertion of `e` into `s` that makes `n` exchanges, at most `limit`, leaves `t`: the first element in
      hand with an open slot is written there; if there is none, that in hand at the end is dropped. */
  ghost predicate Inserted<E(!new)>(c: Config<E>, s: State<E>, e: E, limit: nat, n: nat, t: State<E>)
    requires Shaped(s)
  {
    && n <= limit && Crowded(c, s, e, n)
    && var p := Exchanged(c, s, e, n);
       if n == limit then t == p.state else exists loc: nat | loc < |s.table| :: FirstOpen(c, s, p.e, loc) && t == Write(p.state, loc, p.e, p.le)
  }

  /** One more exchange, when the element in hand has no open slot. */
  lemma NextExchange<E(!new)>(c: Config<E>, s: State<E>, e: E, n: nat, p: Progress<E>)
    requires InHand(c, s, e) && Crowded(c, s, e, n) && p == Exchanged(c, s, e, n)
    requires forall k | 0 <= k < 8 :: !p.state.collected[Locs(c.hash, |s.table|, p.e)[k]]
    ensures Crowded(c, s, e, n + 1)
    ensures var next := NextSlot(Locs(c.hash, |s.table|, p.e), p.last);
            && next < |s.table| && !p.state.collected[next]
            && Exchanged(c, s, e, n + 1) == Progress(Write(p.state, next, p.e, p.le), p.state.table[next], p.state.epoch[next], next)
  {
    hide Locs, NextSlot, Kept, Live, LiveSlots, Sits, StoredOnce;
    ExchangesKeep(c, s, e, n);
  }

  /** What an insertion keeps: everything, if it ends at an open slot, and else everything but the element
      then in hand. */
  lemma InsertionKeeps<E(!new)>(c: Config<E>, s: State<E>, e: E, limit: nat, n: nat, t: State<E>)
    requires InHand(c, s, e) && Inserted(c, s, e, limit, n, t)
    ensures Ok(c, t) && |LiveSlots(t)| <= |LiveSlots(s)| + 1
    ensures var p := Exchanged(c, s, e, n);
            && Kept(t) + {p.e} == Kept(s) + {e} && Live(t) + OneIf(p.le, p.e) == Live(s) + {e}
            && (if n < limit then Kept(t) == Kept(s) + {e} && Live(t) == Live(s) + {e} else p.e != c.nothing ==> p.e !in t.table)
  {
    hide Locs, Exchanged, Kept, Live, LiveSlots, Sits, StoredOnce, Crowded;
    ExchangesKeep(c, s, e, n);
    var p := Exchanged(c, s, e, n);
    if n < limit {
      var loc: nat :| loc < |s.table| && FirstOpen(c, s, p.e, loc) && t == Write(p.state, loc, p.e, p.le);
      PlaceKeeps(c, p.state, loc, p.e, p.le);
    }
  }

  lemma Unmoved<E(!new)>(c: Config<E>, s: State<E>, e: E)
    requires Shaped(s)
    ensures Exchanged(c, s, e, 0) == Progress(s, e, true, -1) && Crowded(c, s, e, 0)
  {
  }

  /** The two ways an insertion ends, and what they keep. */
  ghost predicate Accounted<E(!new)>(c: Config<E>, s: State<E>, e: E, limit: nat, n: nat, t: State<E>)
    requires Shaped(s)
  {
    && Ok(c, t) && |LiveSlots(t)| <= |LiveSlots(s)| + 1 && Inserted(c, s, e, limit, n, t)
    && var lost := Exchanged(c, s, e, n).e;
       && Kept(t) + {lost} == Kept(s) + {e}
       && (n == limit ==> lost != c.nothing ==> lost !in t.table)
       && (n < limit ==> Kept(t) == Kept(s) + {e} && Live(t) == Live(s) + {e})
       && (HasOpen(c, s, e) ==> n == 0)
       && (!HasOpen(c, s, e) && limit == 1 ==> e in Live(t) && lost == s.table[Locs(c.hash, |s.table|, e)[1]])
  }

  lemma EndsOpen<E(!new)>(c: Config<E>, s: State<E>, e: E, limit: nat, n: nat, loc: nat)
    requires InHand(c, s, e) && n < limit && Crowded(c, s, e, n) && loc < |s.table| && FirstOpen(c, s, Exchanged(c, s, e, n).e, loc)
    ensures var p := Exchanged(c, s, e, n); Accounted(c, s, e, limit, n, Write(p.state, loc, p.e, p.le))
  {
    hide Locs, HasOpen, Exchanged, Kept, Live, LiveSlots, Sits, StoredOnce, Crowded, FirstOpen;
    var p := Exchanged(c, s, e, n);
    Account(c, s, e, limit, n, Write(p.state, loc, p.e, p.le));
  }

  lemma EndsFull<E(!new)>(c: Config<E>, s: State<E>, e: E, limit: nat)
    requires InHand(c, s, e) && Crowded(c, s, e, limit) && limit > 0
    ensures Accounted(c, s, e, limit, limit, Exchanged(c, s, e, limit).state)
  {
    hide Locs, HasOpen, Exchanged, Kept, Live, LiveSlots, Sits, StoredOnce, Crowded, FirstOpen;
    Account(c, s, e, limit, limit, Exchanged(c, s, e, limit).state);
  }

  lemma Account<E(!new)>(c: Config<E>, s: State<E>, e: E, limit: nat, n: nat, t: State<E>)
    requires InHand(c, s, e) && Inserted(c, s, e, limit, n, t)
    ensures Accounted(c, s, e, limit, n, t)
  {
    hide Locs, HasOpen, Exchanged, Kept, Live, LiveSlots, Sits, StoredOnce, Inserted;
    InsertionKeeps(c, s, e, limit, n, t);
    OpenAtOnce(c, s, e, limit, n, t);
    if !HasOpen(c, s, e) && limit == 1 {
      OneExchange(c, s, e, n, t);
    }
  }

  /** An element with an open slot is put there at once. */
  lemma OpenAtOnce<E(!new)>(c: Config<E>, s: State<E>, e: E, limit: nat, n: nat, t: State<E>)
    requires Shaped(s) && Inserted(c, s, e, limit, n, t)
    ensures HasOpen(c, s, e) ==> n == 0
  {
    hide Locs, HasOpen;
    if n > 0 {
      assert Exchanged(c, s, e, 0).e == e;
    }
  }

  /** With a single exchange the new element is kept and what stood in its second slot is lost. */
  lemma OneExchange<E(!new)>(c: Config<E>, s: State<E>, e: E, n: nat, t: State<E>)
    requires Shaped(s) && Inserted(c, s, e, 1, n, t) && !HasOpen(c, s, e)
    ensures n == 1 && Exchanged(c, s, e, 1).e == s.table[Locs(c.hash, |s.table|, e)[1]] && Shaped(t) && e in Live(t)
  {
    hide Locs;
    FirstExchange(c, s, e);
    var second := Locs(c.hash, |s.table|, e)[1];
    assert t.table[second] == e && second in LiveSlots(t);
  }

  lemma LiveIsKept<E>(s: State<E>, e: E)
    requires Shaped(s) && e in Live(s)
    ensures e in Kept(s)
  {
    var i :| i in LiveSlots(s) && s.table[i] == e;
    assert i in KeptSlots(s);
  }

  /** A kept element is found in one of its slots. */
  lemma KeptIsFound<E(!new)>(c: Config<E>, s: State<E>, e: E)
    requires Ok(c, s) && e in Kept(s)
    ensures AtLocs(c, s.table, e)
  {
    hide Locs;
    var i :| i in KeptSlots(s) && s.table[i] == e;
    assert i in Locs(c.hash, |s.table|, e);
  }

  /** After `e` was exchanged into slot `last`, the element that came out of it is in hand. The next exchange
      moves `e` again if and only if that element's slot after `last` is `last` once more: never, when
      its eight slots differ. */
  lemma JustPutIn<E(!new)>(c: Config<E>, s: State<E>, last: nat, e: E, le: bool)
    requires InHand(c, s, e) && e != c.nothing && last < |s.table| && !s.collected[last]
    ensures var locs, t := Locs(c.hash, |s.table|, s.table[last]), Write(s, last, e, le);
            var k := IndexOf(locs, last);
            && k < 8 && locs[k] == last
            && (t.table[NextSlot(locs, last)] == e <==> locs[(k + 1) % 8] == locs[k])
            && (NoDuplicates(locs) ==> t.table[NextSlot(locs, last)] != e)
  {
    hide Locs;
    var locs := Locs(c.hash, |s.table|, s.table[last]);
    assert last in locs;
    var k := IndexOf(locs, last);
    var next := NextSlot(locs, last);
    assert next != last ==> Write(s, last, e, le).table[next] == s.table[next];
    if NoDuplicates(locs) {
      assert locs[k] != locs[(k + 1) % 8];
    }
  }

  /** All hashes of 7 scale to slot 0: 8 goes there, and the next exchange moves it out again. */
  lemma MovedAgain()
    ensures var c := Config((_, _) => 0, 0);
            var s := State([7, 0], [false, true], [true, true]);
            var t := Write(s, 0, 8, true);
            InHand(c, s, 8) && t.table[NextSlot(Locs(c.hash, 2, s.table[0]), 0)] == 8
  {
    var c := Config((_, _) => 0, 0);
    var s := State([7, 0], [false, true], [true, true]);
    assert forall e :: Locs(c.hash, 2, e) == [0, 0, 0, 0, 0, 0, 0, 0];
    assert 0 in Locs(c.hash, 2, 7) && Locs(c.hash, 2, 7)[0] == 0;
    assert Sits(c, s);
    JustPutIn(c, s, 0, 8, true);
  }
}
