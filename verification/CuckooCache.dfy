/** The cuckoo cache (src/cuckoocache.h): bit-packed collection flags, epochs, insertion and lookup. */
module CuckooCache {
  import opened ByteBits
  import opened CuckooTable

  // ---------------------------------------------------------------- flags

  class BitPackedFlags {
    const mem: array<bv8>
    /** The flags the bytes stand for. */
    ghost var bits: seq<bool>

    ghost predicate Valid()
      reads this, mem
    {
      |bits| <= 8 * mem.Length && forall s | 0 <= s < |bits| :: bits[s] == Bit(mem[s / 8], s % 8)
    }

    constructor (size: nat)
      ensures Valid() && fresh(mem) && |bits| == size && forall s | 0 <= s < size :: bits[s]
    {
      var bytes := (size + 7) / 8;
      mem := new bv8[bytes](_ => 0xff);
      bits := seq(size, _ => true);
      new;
      forall s | 0 <= s < size ensures Bit(mem[s / 8], s % 8) {
        Constants();
      }
    }

    method Set(s: nat)
      requires Valid() && s < |bits|
      modifies this, mem
      ensures Valid() && bits == old(bits)[s := true]
    {
      hide Bit, OrBit;
      ghost var was := mem[..];
      mem[s / 8] := OrBit(mem[s / 8], s % 8, true);
      bits := bits[s := true];
      forall t | 0 <= t < |bits| ensures bits[t] == Bit(mem[t / 8], t % 8) {
        assert old(bits)[t] == Bit(was[t / 8], t % 8);
        OrBitSets(was[s / 8], s % 8, true, t % 8);
      }
    }

    method Unset(s: nat)
      requires Valid() && s < |bits|
      modifies this, mem
      ensures Valid() && bits == old(bits)[s := false]
    {
      hide Bit, ClearBit;
      ghost var was := mem[..];
      mem[s / 8] := ClearBit(mem[s / 8], s % 8);
      bits := bits[s := false];
      forall t | 0 <= t < |bits| ensures bits[t] == Bit(mem[t / 8], t % 8) {
        assert old(bits)[t] == Bit(was[t / 8], t % 8);
        ClearBitClears(was[s / 8], s % 8, t % 8);
      }
    }

    method IsSet(s: nat) returns (r: bool)
      requires Valid() && s < |bits|
      ensures r == bits[s]
    {
      r := Bit(mem[s / 8], s % 8);
    }
  }

  // ---------------------------------------------------------------- the cache

  function Max(a: nat, b: nat): nat {
    if a < b then b else a
  }

  class Cache<E(==,!new)> {
    const config: Config<E>
    const size: nat
    const epochSize: nat
    const depthLimit: nat
    const table: array<E>
    const flags: BitPackedFlags
    const epochFlags: array<bool>
    var epochHeuristicCounter: nat

    ghost predicate Linked()
      reads this, table, flags, flags.mem, epochFlags
    {
      && flags.Valid() && size > 0 && table.Length == epochFlags.Length == |flags.bits| == size
      && (table as object) != flags.mem && (table as object) != epochFlags && (epochFlags as object) != flags.mem
      && depthLimit >= 1 && epochSize >= 1
    }

    ghost function View(): State<E>
      reads this, table, flags, epochFlags
    {
      State(table[..], flags.bits, epochFlags[..])
    }

    /** The most elements of the current epoch that can be kept. */
    function EpochBound(): nat {
      epochSize + Max(1, epochSize / 16)
    }

    ghost predicate Valid()
      reads this, table, flags, flags.mem, epochFlags
    {
      Linked() && Ok(config, View()) && |LiveSlots(View())| + epochHeuristicCounter <= EpochBound()
    }

    /** `setup`; the depth limit, a logarithm of the size, is at least 1. */
    constructor (config: Config<E>, newSize: nat, depth: nat)
      requires depth >= 1
      ensures Valid() && fresh(table) && fresh(flags) && fresh(flags.mem) && fresh(epochFlags)
      ensures size == Max(2, newSize) && epochSize == Max(1, 45 * size / 100) && this.config == config
      ensures depthLimit == depth && epochHeuristicCounter == epochSize
      ensures Kept(View()) == {} && forall i | 0 <= i < size :: View().collected[i] && View().table[i] == config.nothing && !View().epoch[i]
    {
      var n := Max(2, newSize);
      this.config, size, depthLimit := config, n, depth;
      table := new E[n](_ => config.nothing);
      flags := new BitPackedFlags(n);
      epochFlags := new bool[n](_ => false);
      epochSize := Max(1, 45 * n / 100);
      epochHeuristicCounter := Max(1, 45 * n / 100);
      new;
      assert LiveSlots(View()) == {} && KeptSlots(View()) == {};
    }

    /** The table that `epoch_check` leaves. */
    ghost function Checked(): (s: State<E>)
      requires Shaped(View())
      reads this, table, flags, epochFlags
      ensures Shaped(s)
    {
      if epochHeuristicCounter == 0 && |LiveSlots(View())| >= epochSize then Age(View()) else View()
    }

    /** The number of insertions until the next scan. */
    ghost function NextCounter(): int
      requires Shaped(View())
      reads this, table, flags, epochFlags
    {
      var live := |LiveSlots(View())|;
      if epochHeuristicCounter != 0 then epochHeuristicCounter - 1
      else if live >= epochSize then epochSize
      else Max(1, Max(epochSize / 16, epochSize - live))
    }

    /** `epoch_check`: when the counter has run out, either the epochs age or the counter is set to the
        number of insertions that could fill the epoch. */
    method EpochCheck()
      requires Valid()
      modifies `epochHeuristicCounter, flags, flags.mem, epochFlags
      ensures Linked() && Ok(config, View())
      ensures |LiveSlots(View())| + 1 + epochHeuristicCounter <= EpochBound()
      ensures View() == old(Checked()) && epochHeuristicCounter == old(NextCounter())
    {
      hide Ok;
      if epochHeuristicCounter != 0 {
        epochHeuristicCounter := epochHeuristicCounter - 1;
        return;
      }
      var unused := CountLive();
      if unused >= epochSize {
        AgeKeeps(config, View());
        AgeAll();
        epochHeuristicCounter := epochSize;
      } else {
        epochHeuristicCounter := Max(1, Max(epochSize / 16, epochSize - unused));
      }
    }

    method CountLive() returns (n: nat)
      requires Linked()
      ensures n == |LiveSlots(View())|
    {
      hide BitPackedFlags.Valid, LiveUpTo;
      n := 0;
      ghost var s := View();
      LiveEnds(s);
      for i := 0 to size
        invariant n == |LiveUpTo(s, i)|
      {
        var gone := flags.IsSet(i);
        LiveNext(s, i);
        if epochFlags[i] && !gone {
          n := n + 1;
        }
      }
    }

    method AgeAll()
      requires Linked()
      modifies flags, flags.mem, epochFlags
      ensures Linked() && View() == Age(old(View()))
    {
      hide BitPackedFlags.Valid;
      ghost var was := View();
      for i := 0 to size
        invariant Linked() && table[..] == was.table
        invariant forall k | 0 <= k < i :: !epochFlags[k] && flags.bits[k] == (was.collected[k] || !was.epoch[k])
        invariant forall k | i <= k < size :: epochFlags[k] == was.epoch[k] && flags.bits[k] == was.collected[k]
      {
        if epochFlags[i] {
          epochFlags[i] := false;
        } else {
          flags.Set(i);
        }
      }
      assert View().collected == Age(was).collected && View().epoch == Age(was).epoch;
    }

    /** `please_keep` after writing a slot. */
    method WriteSlot(loc: nat, e: E, le: bool)
      requires Linked() && loc < size
      modifies table, flags, flags.mem, epochFlags
      ensures Linked() && View() == Write(old(View()), loc, e, le)
    {
      table[loc] := e;
      flags.Unset(loc);
      epochFlags[loc] := le;
    }

    /** Exchanges the element in hand with that of a kept slot. */
    method SwapSlot(loc: nat, e: E, le: bool) returns (e': E, le': bool)
      requires Linked() && loc < size && !flags.bits[loc]
      modifies table, epochFlags
      ensures Linked() && View() == Write(old(View()), loc, e, le)
      ensures e' == old(View()).table[loc] && le' == old(View()).epoch[loc]
    {
      hide BitPackedFlags.Valid;
      e', le' := table[loc], epochFlags[loc];
      table[loc], epochFlags[loc] := e, le;
      assert flags.bits[loc := false] == flags.bits;
    }

    /** The first slot of `locs` that may be overwritten, or 8. */
    method FindOpen(locs: seq<nat>) returns (k: nat)
      requires Linked() && |locs| == 8 && forall i | 0 <= i < 8 :: locs[i] < size
      ensures k <= 8 && (k < 8 ==> flags.bits[locs[k]])
      ensures forall i | 0 <= i < k :: !flags.bits[locs[i]]
    {
      hide BitPackedFlags.Valid;
      k := 0;
      while k < 8
        invariant k <= 8 && forall i | 0 <= i < k :: !flags.bits[locs[i]]
      {
        var open := flags.IsSet(locs[k]);
        if open {
          return;
        }
        k := k + 1;
      }
    }

    /** The first slot of `locs` that holds `e`, or 8. */
    method FindElement(locs: seq<nat>, e: E) returns (k: nat)
      requires Linked() && |locs| == 8 && forall i | 0 <= i < 8 :: locs[i] < size
      ensures k <= 8 && (k < 8 ==> table[locs[k]] == e)
      ensures forall i | 0 <= i < k :: table[locs[i]] != e
    {
      k := 0;
      while k < 8 && table[locs[k]] != e
        invariant k <= 8 && forall i | 0 <= i < k :: table[locs[i]] != e
      {
        k := k + 1;
      }
    }

    /** `insert`. Of the new element and the kept elements that the epoch check leaves, at most one is
        lost: none, when the new element is stored already or one of the elements that come into hand finds an
        open slot; and otherwise the one in hand after as many exchanges as the limit allows. */
    method Insert(element: E) returns (ghost lost: E, ghost n: nat)
      requires Valid()
      modifies this, table, flags, flags.mem, epochFlags
      ensures Valid() && epochHeuristicCounter == old(NextCounter())
      ensures var s := old(Checked());
              if AtLocs(config, s.table, element) then
                Kept(View()) == Kept(s) + {element} && Live(View()) == Live(s) + {element} && table[..] == s.table
              else Inserted(config, s, element, depthLimit, n, View()) && lost == Exchanged(config, s, element, n).e
      ensures var s := old(Checked());
              Kept(View()) + {lost} == Kept(s) + {element}
      ensures var s := old(Checked());
              !AtLocs(config, s.table, element) && n == depthLimit ==> lost != config.nothing ==> lost !in table[..]
      ensures var s := old(Checked());
              AtLocs(config, s.table, element) || HasOpen(config, s, element) || n < depthLimit ==>
                Kept(View()) == Kept(s) + {element} && Live(View()) == Live(s) + {element}
      ensures var s := old(Checked());
              !AtLocs(config, s.table, element) && !HasOpen(config, s, element) && depthLimit == 1 ==>
                element in Live(View()) && lost == s.table[Locs(config.hash, size, element)[1]]
    {
      hide Ok, Locs, NextSlot, Kept, Live, LiveSlots, Write, BitPackedFlags.Valid, Exchanged, Crowded, HasOpen, Inserted;
      EpochCheck();
      ghost var s := View();
      n, lost := 0, element;
      var locs := Locs(config.hash, size, element);
      var k := FindElement(locs, element);
      if k < 8 {
        RenewKeeps(config, View(), locs[k], element);
        WriteSlot(locs[k], element, true);
        return;
      }
      NotStored(config, s, element);
      var e, le, last: int := element, true, -1;
      Unmoved(config, s, element);
      for depth := 0 to depthLimit
        invariant Linked() && Crowded(config, s, element, depth) && Exchanged(config, s, element, depth) == Progress(View(), e, le, last)
        invariant locs == Locs(config.hash, size, e) && epochHeuristicCounter == old(NextCounter())
      {
        k := FindOpen(locs);
        if k < 8 {
          ghost var p := Exchanged(config, s, element, depth);
          ExchangesKeep(config, s, element, depth);
          assert FirstOpen(config, s, e, locs[k]);
          WriteSlot(locs[k], e, le);
          n, lost := depth, e;
          EndsOpen(config, s, element, depthLimit, depth, locs[k]);
          return;
        }
        NextExchange(config, s, element, depth, Progress(View(), e, le, last));
        last := NextSlot(locs, last);
        e, le := SwapSlot(last, e, le);
        locs := Locs(config.hash, size, e);
      }
      n, lost := depthLimit, e;
      EndsFull(config, s, element, depthLimit);
    }

    /** `contains`; with `erase`, a found element may be overwritten later but is still found now. */
    method Contains(e: E, erase: bool) returns (found: bool)
      requires Valid()
      modifies flags, flags.mem
      ensures Valid() && table[..] == old(table[..]) && epochFlags[..] == old(epochFlags[..])
      ensures found <==> AtLocs(config, table[..], e)
      ensures e != config.nothing ==> (found <==> e in table[..])
      ensures !erase || !found ==> View() == old(View())
      ensures erase && found ==> exists loc: nat :: loc < size && table[loc] == e && View() == Discard(old(View()), loc)
    {
      hide Ok, Locs, BitPackedFlags.Valid;
      var locs := Locs(config.hash, size, e);
      if e != config.nothing {
        FoundAtLocs(config, View(), e);
      }
      var k := FindElement(locs, e);
      found := k < 8;
      if found {
        assert table[..][locs[k]] == e;
        if erase {
          DiscardKeeps(config, View(), locs[k]);
          flags.Set(locs[k]);
        }
      }
    }

    /** An element that is stored already, or has an open slot, is found after its insertion; so is every one if
        only one exchange is allowed. */
    method InsertAndFind(e: E) returns (r: bool)
      requires Valid()
      modifies this, table, flags, flags.mem, epochFlags
      ensures Valid()
      ensures var s := old(Checked());
              AtLocs(config, s.table, e) || HasOpen(config, s, e) || depthLimit == 1 ==> r
    {
      hide Ok, Locs, Kept, Live, BitPackedFlags.Valid, HasOpen, Inserted, Exchanged, AtLocs;
      ghost var s := Checked();
      ghost var _, _ := Insert(e);
      r := Contains(e, false);
      if AtLocs(config, s.table, e) || HasOpen(config, s, e) || depthLimit == 1 {
        LiveIsKept(View(), e);
        KeptIsFound(config, View(), e);
      }
    }

    /** An element looked up for erasure is still there to be found until the next insertion. */
    method InsertEraseFind(e: E) returns (r: bool)
      requires Valid()
      modifies this, table, flags, flags.mem, epochFlags
      ensures Valid() && r
    {
      hide Ok, Locs, Kept, BitPackedFlags.Valid;
      ghost var _, _ := Insert(e);
      var found := Contains(e, true);
      if found {
        r := Contains(e, false);
      } else {
        r := true;
      }
    }

    /** The number of kept elements of the current epoch is bounded. */
    lemma EpochIsBounded()
      requires Valid()
      ensures |LiveSlots(View())| <= epochSize + Max(1, epochSize / 16)
    {
    }
  }

  lemma NotStored<E(!new)>(c: Config<E>, s: State<E>, e: E)
    requires Ok(c, s) && forall k | 0 <= k < 8 :: s.table[Locs(c.hash, |s.table|, e)[k]] != e
    ensures InHand(c, s, e)
  {
    hide Locs;
    if e != c.nothing {
      FoundAtLocs(c, s, e);
    }
  }
}
