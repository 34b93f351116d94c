/** The rolling Bloom filter (src/bloom.cpp, src/bloom.h): two bits per position hold the generation, from
    1 to 3, that last set it, and each new generation wipes the positions of the oldest. */
module RollingBloom {
  import opened Common

  // ---------------------------------------------------------------- bits of words

  /** A bit number within a word. */
  type Bit = b: bv7 | b < 64

  predicate Get(x: bv64, b: Bit) {
    (x >> b) & 1 == 1
  }

  function Word(on: bool): bv64 {
    if on then 1 else 0
  }

  /** `(x & ~(1 << b)) | (v << b)`. */
  function Put(x: bv64, b: Bit, v: bool): bv64 {
    (x & !((1 as bv64) << b)) | (Word(v) << b)
  }

  lemma PutGet(x: bv64, b: Bit, v: bool, c: Bit)
    ensures Get(Put(x, b, v), c) == if c == b then v else Get(x, c)
  {
  }

  /** All ones or all zeros. */
  function GenerationMask(on: bool): bv64 {
    0 - Word(on)
  }

  function Masked(x: bv64, mask: bv64): bv64 {
    x & mask
  }

  function Either(x: bv64, y: bv64): bv64 {
    x | y
  }

  function WipeMask(p1: bv64, p2: bv64, g1: bool, g2: bool): bv64 {
    (p1 ^ GenerationMask(g1)) | (p2 ^ GenerationMask(g2))
  }

  lemma GetAnd(x: bv64, y: bv64, c: Bit)
    ensures Get(x & y, c) == (Get(x, c) && Get(y, c))
  {
  }

  lemma GetOr(x: bv64, y: bv64, c: Bit)
    ensures Get(x | y, c) == (Get(x, c) || Get(y, c))
  {
  }

  lemma GetXor(x: bv64, y: bv64, c: Bit)
    ensures Get(x ^ y, c) == (Get(x, c) != Get(y, c))
  {
  }

  lemma GetMask(on: bool, c: Bit)
    ensures Get(GenerationMask(on), c) == on
  {
  }

  lemma MaskGet(p1: bv64, p2: bv64, g1: bool, g2: bool, c: Bit)
    ensures Get(WipeMask(p1, p2, g1, g2), c) == (Get(p1, c) != g1 || Get(p2, c) != g2)
  {
    hide Get, GenerationMask;
    MaskOr(p1, p2, GenerationMask(g1), GenerationMask(g2), c);
    GetMask(g1, c);
    GetMask(g2, c);
  }

  lemma MaskOr(p1: bv64, p2: bv64, m1: bv64, m2: bv64, c: Bit)
    ensures Get((p1 ^ m1) | (p2 ^ m2), c) == (Get(p1, c) != Get(m1, c) || Get(p2, c) != Get(m2, c))
  {
    var a, b := p1 ^ m1, p2 ^ m2;
    GetXor(p1, m1, c);
    GetXor(p2, m2, c);
    GetOr(a, b, c);
  }

  /** The mask clears a position exactly when it holds the given generation. */
  lemma WipeGet(p1: bv64, p2: bv64, g1: bool, g2: bool, c: Bit)
    ensures var mask := WipeMask(p1, p2, g1, g2);
            var same := Get(p1, c) == g1 && Get(p2, c) == g2;
            Get(Masked(p1, mask), c) == (Get(p1, c) && !same) && Get(Masked(p2, mask), c) == (Get(p2, c) && !same)
  {
    hide Get, WipeMask;
    MaskGet(p1, p2, g1, g2, c);
    GetAnd(p1, WipeMask(p1, p2, g1, g2), c);
    GetAnd(p2, WipeMask(p1, p2, g1, g2), c);
  }

  // ---------------------------------------------------------------- positions and generations

  /** A position: bit `bit` of words `2 * word` and `2 * word + 1`. */
  datatype Place = Place(word: nat, bit: Bit)

  ghost function Generation(data: seq<bv64>, q: Place): nat
    requires 2 * q.word + 1 < |data|
  {
    (if Get(data[2 * q.word], q.bit) then 1 else 0) + (if Get(data[2 * q.word + 1], q.bit) then 2 else 0)
  }

  type Key = seq<bv8>

  /** The hash functions with the tweak fixed. */
  type Hasher = (nat, Key) -> bv32

  /** Where hash function `n` puts a key. */
  function PlaceOf(h: Hasher, size: nat, n: nat, key: Key): (q: Place)
    requires size > 0 && size % 2 == 0
    ensures 2 * q.word + 1 < size
    ensures q.word == (h(n, key) / 64) as nat % size / 2 && q.bit as bv32 == h(n, key) % 64
  {
    var v := h(n, key);
    var pos := (v >> 6) as nat % size;
    Place(pos / 2, (v & 0x3f) as bv7)
  }

  ghost predicate Hits(h: Hasher, hashes: nat, size: nat, key: Key, q: Place)
    requires size > 0 && size % 2 == 0
  {
    exists n: nat | n < hashes :: PlaceOf(h, size, n, key) == q
  }

  /** The parameters of a filter. */
  datatype Shape = Shape(h: Hasher, hashes: nat, size: nat, perGeneration: nat)

  ghost predicate ShapeOk(s: Shape) {
    s.size > 0 && s.size % 2 == 0 && s.perGeneration > 0
  }

  /** The generation, counted from 0 without wrapping, of the last key that hit a position; -1 if none. */
  ghost function LastHit(s: Shape, history: seq<Key>, q: Place): (r: int)
    requires ShapeOk(s)
    ensures -1 <= r <= Current(s, |history|)
  {
    if history == [] then -1
    else
      var n := |history| - 1;
      CurrentGrows(s, n);
      if Hits(s.h, s.hashes, s.size, history[n], q) then n / s.perGeneration else LastHit(s, history[..n], q)
  }

  /** The generation of the last of `n` keys. */
  ghost function Current(s: Shape, n: nat): nat
    requires ShapeOk(s)
  {
    if n == 0 then 0 else (n - 1) / s.perGeneration
  }

  lemma CurrentGrows(s: Shape, n: nat)
    requires ShapeOk(s)
    ensures Current(s, n) <= Current(s, n + 1) == n / s.perGeneration
  {
    if n > 0 {
      DivMonotone(n - 1, n, s.perGeneration);
    }
  }

  lemma DivMonotone(a: nat, b: nat, d: nat)
    requires a <= b && d > 0
    ensures a / d <= b / d
  {
    var q, r := a / d, b / d;
    assert a == q * d + a % d && b == r * d + b % d;
    if r < q {
      MulMonotone(r + 1, q, d);
      assert false;
    }
  }

  function Code(g: nat): nat {
    g % 3 + 1
  }

  /** The last three generations are remembered, older ones are not. */
  ghost function Expected(hit: int, current: nat): nat
    requires hit <= current
  {
    if hit >= 0 && hit + 2 >= current then Code(hit) else 0
  }

  /** The words hold, at every position, the generation of its last hit if that is recent enough. */
  ghost predicate Remembers(s: Shape, data: seq<bv64>, history: seq<Key>, current: nat)
    requires ShapeOk(s)
  {
    && |data| == s.size && Current(s, |history|) <= current
    && forall q: Place | 2 * q.word + 1 < |data| :: Generation(data, q) == Expected(LastHit(s, history, q), current)
  }

  ghost predicate Wiped(before: seq<bv64>, after: seq<bv64>, g: nat) {
    && |after| == |before|
    && forall q: Place | 2 * q.word + 1 < |before| ::
         Generation(after, q) == if Generation(before, q) == g then 0 else Generation(before, q)
  }

  /** Wiping the next generation number forgets the oldest of the three generations and nothing else. */
  lemma WipeKeeps(s: Shape, before: seq<bv64>, after: seq<bv64>, history: seq<Key>, current: nat)
    requires ShapeOk(s) && Remembers(s, before, history, current) && Wiped(before, after, Code(current + 1))
    ensures Remembers(s, after, history, current + 1)
  {
    hide Generation, LastHit, Current;
    forall q: Place | 2 * q.word + 1 < |after|
      ensures Generation(after, q) == Expected(LastHit(s, history, q), current + 1)
    {
      assert Generation(before, q) == Expected(LastHit(s, history, q), current);
    }
  }

  /** The positions of the first `n` hashes of `key` hold generation `g`, the others what they held. */
  ghost predicate Marked(s: Shape, before: seq<bv64>, after: seq<bv64>, key: Key, n: nat, g: nat)
    requires ShapeOk(s)
  {
    && |after| == |before| == s.size
    && forall q: Place | 2 * q.word + 1 < |before| ::
         Generation(after, q) == if Hits(s.h, n, s.size, key, q) then g else Generation(before, q)
  }

  lemma MarkKeeps(s: Shape, before: seq<bv64>, after: seq<bv64>, history: seq<Key>, current: nat, key: Key)
    requires ShapeOk(s) && Remembers(s, before, history, current) && current == |history| / s.perGeneration
    requires Marked(s, before, after, key, s.hashes, Code(current))
    ensures Remembers(s, after, history + [key], current)
  {
    hide Generation, Hits;
    assert (history + [key])[..|history|] == history;
    assert Current(s, |history + [key]|) == current;
  }

  /** One hash sets its position in both words. */
  lemma MarkOne(s: Shape, before: seq<bv64>, mid: seq<bv64>, after: seq<bv64>, key: Key, n: nat, g: nat)
    requires ShapeOk(s) && 1 <= g <= 3 && Marked(s, before, mid, key, n, g)
    requires var p := PlaceOf(s.h, s.size, n, key);
             after == mid[2 * p.word := Put(mid[2 * p.word], p.bit, g % 2 == 1)]
                         [2 * p.word + 1 := Put(mid[2 * p.word + 1], p.bit, g / 2 == 1)]
    ensures Marked(s, before, after, key, n + 1, g)
  {
    hide Get, Put, PlaceOf;
    var p := PlaceOf(s.h, s.size, n, key);
    forall q: Place | 2 * q.word + 1 < |before|
      ensures Generation(after, q) == if Hits(s.h, n + 1, s.size, key, q) then g else Generation(before, q)
    {
      assert Generation(mid, q) == if Hits(s.h, n, s.size, key, q) then g else Generation(before, q);
      PutGet(mid[2 * p.word], p.bit, g % 2 == 1, q.bit);
      PutGet(mid[2 * p.word + 1], p.bit, g / 2 == 1, q.bit);
      HitsNext(s, key, n, q);
      assert q.word == p.word && q.bit == p.bit <==> q == p;
    }
  }

  lemma HitsNext(s: Shape, key: Key, n: nat, q: Place)
    requires ShapeOk(s)
    ensures Hits(s.h, n + 1, s.size, key, q) <==> Hits(s.h, n, s.size, key, q) || PlaceOf(s.h, s.size, n, key) == q
  {
    hide PlaceOf;
  }

  class RollingBloomFilter {
    const nHashFuncs: nat
    const nEntriesPerGeneration: nat
    var nEntriesThisGeneration: nat
    var nGeneration: nat
    const data: array<bv64>
    var hasher: Hasher
    /** The keys inserted since the last reset. */
    ghost var history: seq<Key>

    ghost function TheShape(): Shape
      reads this
    {
      Shape(hasher, nHashFuncs, data.Length, nEntriesPerGeneration)
    }

    ghost predicate Valid()
      reads this, data
    {
      && ShapeOk(TheShape())
      && var current := Current(TheShape(), |history|);
      && nGeneration == Code(current) && nEntriesThisGeneration == |history| - current * nEntriesPerGeneration
      && Remembers(TheShape(), data[..], history, current)
    }

    /** The number of words follows from the false positive rate; it is not zero for a filter of at least
        one element. */
    constructor (nElements: nat, words: nat, hashes: nat, tweaked: Hasher)
      requires nElements > 0 && words > 0
      ensures Valid() && fresh(data) && history == [] && nElements <= 2 * nEntriesPerGeneration <= nElements + 1
      ensures nHashFuncs == hashes && data.Length == 2 * words && hasher == tweaked
    {
      nHashFuncs, nEntriesPerGeneration := hashes, (nElements + 1) / 2;
      data := new bv64[2 * words];
      hasher, history, nEntriesThisGeneration, nGeneration := tweaked, [], 0, 1;
      new;
      Reset(tweaked);
    }

    method Reset(tweaked: Hasher)
      requires ShapeOk(TheShape())
      modifies this, data
      ensures Valid() && history == [] && hasher == tweaked
    {
      hasher, nEntriesThisGeneration, nGeneration, history := tweaked, 0, 1, [];
      for i := 0 to data.Length
        invariant forall k | 0 <= k < i :: data[k] == 0
        invariant nEntriesThisGeneration == 0 && nGeneration == 1 && history == [] && hasher == tweaked
      {
        data[i] := 0;
      }
      forall q: Place | 2 * q.word + 1 < data.Length ensures Generation(data[..], q) == 0 {
        ZeroGet(q.bit);
      }
    }

    /** Clears the positions that hold the current generation number. */
    method Wipe()
      requires data.Length % 2 == 0 && 1 <= nGeneration <= 3
      modifies data
      ensures Wiped(old(data[..]), data[..], nGeneration)
    {
      hide Get, WipeMask, Masked, Generation;
      ghost var was := data[..];
      var g1, g2 := nGeneration % 2 == 1, nGeneration / 2 == 1;
      var p := 0;
      while p < data.Length
        invariant 0 <= p <= data.Length && p % 2 == 0
        invariant forall k | p <= k < data.Length :: data[k] == was[k]
        invariant forall w: nat | 2 * w < p :: PairWiped(was, data[..], w, g1, g2)
      {
        ghost var mid := data[..];
        var p1, p2 := data[p], data[p + 1];
        var mask := WipeMask(p1, p2, g1, g2);
        data[p] := Masked(p1, mask);
        data[p + 1] := Masked(p2, mask);
        forall w: nat | 2 * w < p + 2 ensures PairWiped(was, data[..], w, g1, g2) {
          assert 2 * w < p ==> PairWiped(was, mid, w, g1, g2);
        }
        p := p + 2;
      }
      WipeAll(was, data[..], nGeneration);
    }

    /** Starts the next generation when the current one is full. */
    method Roll()
      requires Valid()
      modifies this`nEntriesThisGeneration, this`nGeneration, data
      ensures var current := |history| / nEntriesPerGeneration;
              && nGeneration == Code(current) && nEntriesThisGeneration == |history| - current * nEntriesPerGeneration
              && Remembers(TheShape(), data[..], history, current)
    {
      hide Remembers, Wiped;
      ghost var s, current := TheShape(), Current(TheShape(), |history|);
      NextKey(s, |history|);
      if nEntriesThisGeneration == nEntriesPerGeneration {
        nEntriesThisGeneration := 0;
        nGeneration := nGeneration + 1;
        if nGeneration == 4 {
          nGeneration := 1;
        }
        ghost var was := data[..];
        Wipe();
        WipeKeeps(s, was, data[..], history, current);
      }
    }

    /** Sets every position of the key to the current generation. */
    method Mark(key: Key)
      requires ShapeOk(TheShape()) && 1 <= nGeneration <= 3
      modifies data
      ensures Marked(TheShape(), old(data[..]), data[..], key, nHashFuncs, nGeneration)
    {
      hide Marked, Put, PlaceOf;
      ghost var s, before := TheShape(), data[..];
      MarkNone(s, before, key, nGeneration);
      for n := 0 to nHashFuncs
        invariant Marked(s, before, data[..], key, n, nGeneration)
      {
        ghost var mid := data[..];
        var p := PlaceOf(hasher, data.Length, n, key);
        data[2 * p.word] := Put(data[2 * p.word], p.bit, nGeneration % 2 == 1);
        data[2 * p.word + 1] := Put(data[2 * p.word + 1], p.bit, nGeneration / 2 == 1);
        MarkOne(s, before, mid, data[..], key, n, nGeneration);
      }
    }

    method Insert(key: Key)
      requires Valid()
      modifies this, data
      ensures Valid() && history == old(history) + [key] && hasher == old(hasher)
    {
      hide Remembers, Marked;
      ghost var s, current := TheShape(), |history| / nEntriesPerGeneration;
      NextKey(s, |history|);
      CurrentGrows(s, |history|);
      Roll();
      nEntriesThisGeneration := nEntriesThisGeneration + 1;
      ghost var before := data[..];
      Mark(key);
      MarkKeeps(s, before, data[..], history, current, key);
      history := history + [key];
    }

    /** `contains`: every position of the key was hit by a key of the last three generations. */
    method Contains(key: Key) returns (r: bool)
      requires Valid()
      ensures r <==> forall n: nat | n < nHashFuncs ::
                var hit := LastHit(TheShape(), history, PlaceOf(hasher, data.Length, n, key));
                hit >= 0 && hit + 2 >= Current(TheShape(), |history|)
    {
      hide Get, LastHit, PlaceOf, Either, Generation;
      ghost var s := TheShape();
      for n := 0 to nHashFuncs
        invariant forall k: nat | k < n ::
                    var hit := LastHit(s, history, PlaceOf(hasher, data.Length, k, key));
                    hit >= 0 && hit + 2 >= Current(s, |history|)
      {
        var p := PlaceOf(hasher, data.Length, n, key);
        AnyBit(data[..], p);
        assert Generation(data[..], p) == Expected(LastHit(s, history, p), Current(s, |history|));
        if !Get(Either(data[2 * p.word], data[2 * p.word + 1]), p.bit) {
          return false;
        }
      }
      return true;
    }
  }

  lemma AnyBit(data: seq<bv64>, p: Place)
    requires 2 * p.word + 1 < |data|
    ensures Get(Either(data[2 * p.word], data[2 * p.word + 1]), p.bit) <==> Generation(data, p) != 0
  {
    hide Get;
    GetOr(data[2 * p.word], data[2 * p.word + 1], p.bit);
  }

  ghost predicate PairWiped(before: seq<bv64>, after: seq<bv64>, w: nat, g1: bool, g2: bool) {
    && 2 * w + 1 < |before| == |after|
    && var mask := WipeMask(before[2 * w], before[2 * w + 1], g1, g2);
    && after[2 * w] == Masked(before[2 * w], mask) && after[2 * w + 1] == Masked(before[2 * w + 1], mask)
  }

  lemma WipeAll(before: seq<bv64>, after: seq<bv64>, g: nat)
    requires 1 <= g <= 3 && |before| == |after| && |before| % 2 == 0
    requires forall w: nat | 2 * w < |before| :: PairWiped(before, after, w, g % 2 == 1, g / 2 == 1)
    ensures Wiped(before, after, g)
  {
    hide Get, WipeMask, Masked;
    forall q: Place | 2 * q.word + 1 < |before|
      ensures Generation(after, q) == if Generation(before, q) == g then 0 else Generation(before, q)
    {
      assert PairWiped(before, after, q.word, g % 2 == 1, g / 2 == 1);
      WipeGet(before[2 * q.word], before[2 * q.word + 1], g % 2 == 1, g / 2 == 1, q.bit);
    }
  }

  lemma ZeroGet(b: Bit)
    ensures !Get(0, b)
  {
  }

  lemma MarkNone(s: Shape, data: seq<bv64>, key: Key, g: nat)
    requires ShapeOk(s) && |data| == s.size
    ensures Marked(s, data, data, key, 0, g)
  {
    hide Generation;
  }

  /** The generation is full exactly when the next key starts a new one. */
  lemma NextKey(s: Shape, n: nat)
    requires ShapeOk(s)
    ensures var e, current := s.perGeneration, Current(s, n);
            n / e == if n - current * e == e then current + 1 else current
  {
    var e, current := s.perGeneration, Current(s, n);
    if n > 0 {
      var r := (n - 1) % e;
      assert n - 1 == current * e + r;
      if r == e - 1 {
        assert n == (current + 1) * e;
        DivMod(current + 1, 0, e);
      } else {
        DivMod(current, r + 1, e);
      }
    }
  }

  /** Each of the last nElements keys inserted is found. */
  lemma WindowIsContained(s: Shape, history: seq<Key>, t: nat, n: nat)
    requires ShapeOk(s) && t < |history| <= t + 2 * s.perGeneration && n < s.hashes
    ensures var hit := LastHit(s, history, PlaceOf(s.h, s.size, n, history[t]));
            hit >= 0 && hit + 2 >= Current(s, |history|)
  {
    hide PlaceOf, LastHit;
    var q := PlaceOf(s.h, s.size, n, history[t]);
    assert Hits(s.h, s.hashes, s.size, history[t], q);
    HitSince(s, history, t, q);
    TwoGenerations(t, |history| - 1, s.perGeneration);
  }

  lemma TwoGenerations(t: nat, last: nat, e: nat)
    requires e > 0 && t <= last < t + 2 * e
    ensures 0 <= t / e && last / e <= t / e + 2
  {
    DivMonotone(last, t + 2 * e, e);
    assert t + 2 * e == (t / e + 2) * e + t % e;
    DivMod(t / e + 2, t % e, e);
  }

  lemma {:induction false} HitSince(s: Shape, history: seq<Key>, t: nat, q: Place)
    requires ShapeOk(s) && t < |history| && Hits(s.h, s.hashes, s.size, history[t], q)
    ensures LastHit(s, history, q) >= t / s.perGeneration
  {
    var n := |history| - 1;
    DivMonotone(t, n, s.perGeneration);
    if t < n {
      HitSince(s, history[..n], t, q);
    }
  }

  /** Inserting any keys after a reset, then asking for one of the last nElements. */
  method InsertAllAndFind(nElements: nat, words: nat, hashes: nat, tweaked: Hasher, keys: seq<Key>, t: nat) returns (found: bool)
    requires nElements > 0 && words > 0 && t < |keys| <= t + nElements
    ensures found
  {
    var filter := new RollingBloomFilter(nElements, words, hashes, tweaked);
    for i := 0 to |keys|
      invariant filter.Valid() && filter.history == keys[..i] && fresh(filter) && fresh(filter.data)
    {
      filter.Insert(keys[i]);
      assert keys[..i] + [keys[i]] == keys[..i + 1];
    }
    assert keys[..|keys|] == keys;
    ghost var s := filter.TheShape();
    forall n: nat | n < s.hashes
      ensures var hit := LastHit(s, keys, PlaceOf(s.h, s.size, n, keys[t]));
              hit >= 0 && hit + 2 >= Current(s, |keys|)
    {
      WindowIsContained(s, keys, t, n);
    }
    found := filter.Contains(keys[t]);
  }
}
