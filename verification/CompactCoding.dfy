/** The encodings inside compact block messages (src/blockencodings.h, BIP 152): differential indexes and
    six-byte short ids. */
module CompactCoding {
  import opened Common

  const MAX16 := 0xffff

  // ---------------------------------------------------------------- differential indexes

  /** The first index, or the distance to the index before, in 64-bit arithmetic. */
  ghost function Difference(indexes: seq<nat>, i: nat): nat
    requires i < |indexes|
  {
    if i == 0 then indexes[0] else (indexes[i] - (indexes[i - 1] + 1)) % TWO64
  }

  /** Writing a request. */
  method WriteIndexes(indexes: seq<nat>) returns (out: seq<nat>)
    requires forall i | 0 <= i < |indexes| :: indexes[i] <= MAX16
    ensures |out| == |indexes| && forall i | 0 <= i < |indexes| :: out[i] == Difference(indexes, i)
  {
    out := [];
    for i := 0 to |indexes|
      invariant |out| == i && forall j | 0 <= j < i :: out[j] == Difference(indexes, j)
    {
      var index := if i == 0 then indexes[0] else (indexes[i] - (indexes[i - 1] + 1)) % TWO64;
      out := out + [index];
    }
  }

  /** The index that the first `k` differences lead to, `offset` being a 16-bit variable. */
  ghost function Offset(diffs: seq<nat>, k: nat): nat
    requires k <= |diffs|
    decreases k, 0
  {
    if k == 0 then 0 else (Index(diffs, k - 1) + 1) % (MAX16 + 1)
  }

  ghost function Index(diffs: seq<nat>, k: nat): nat
    requires k < |diffs|
    decreases k, 1
  {
    diffs[k] + Offset(diffs, k)
  }

  ghost predicate Readable(diffs: seq<nat>) {
    forall k | 0 <= k < |diffs| :: diffs[k] <= MAX16 && Index(diffs, k) <= MAX16
  }

  /** Reading a request; nothing is returned when an index does not fit 16 bits. */
  method ReadIndexes(diffs: seq<nat>) returns (r: Option<seq<nat>>)
    ensures r.Some? <==> Readable(diffs)
    ensures r.Some? ==> |r.value| == |diffs| && forall k | 0 <= k < |diffs| :: r.value[k] == Index(diffs, k)
  {
    for i := 0 to |diffs|
      invariant forall k | 0 <= k < i :: diffs[k] <= MAX16
    {
      if diffs[i] > MAX16 {
        return None;
      }
    }
    var indexes, offset := diffs, 0;
    for j := 0 to |diffs|
      invariant |indexes| == |diffs| && offset == Offset(diffs, j)
      invariant forall k | 0 <= k < j :: indexes[k] == Index(diffs, k) <= MAX16
      invariant forall k | j <= k < |diffs| :: indexes[k] == diffs[k]
    {
      if indexes[j] + offset > MAX16 {
        return None;
      }
      indexes := indexes[j := indexes[j] + offset];
      offset := (indexes[j] + 1) % (MAX16 + 1);
    }
    return Some(indexes);
  }

  ghost predicate Increasing(s: seq<nat>) {
    forall i, j | 0 <= i < j < |s| :: s[i] < s[j]
  }

  /** Every increasing list of 16-bit indexes survives the encoding. */
  lemma {:induction false} IndexesRoundTrip(indexes: seq<nat>, diffs: seq<nat>, k: nat)
    requires Increasing(indexes) && (forall i | 0 <= i < |indexes| :: indexes[i] <= MAX16)
    requires |diffs| == |indexes| && forall i | 0 <= i < |indexes| :: diffs[i] == Difference(indexes, i)
    requires k < |indexes|
    ensures diffs[k] <= MAX16 && Index(diffs, k) == indexes[k]
  {
    if k > 0 {
      IndexesRoundTrip(indexes, diffs, k - 1);
      assert indexes[k - 1] < indexes[k];
    }
  }

  method SendIndexes(indexes: seq<nat>) returns (r: Option<seq<nat>>)
    requires Increasing(indexes) && forall i | 0 <= i < |indexes| :: indexes[i] <= MAX16
    ensures r == Some(indexes)
  {
    var diffs := WriteIndexes(indexes);
    forall k | 0 <= k < |diffs| ensures diffs[k] <= MAX16 && Index(diffs, k) == indexes[k] {
      IndexesRoundTrip(indexes, diffs, k);
    }
    r := ReadIndexes(diffs);
    assert Readable(diffs);
    assert r.value == indexes;
  }

  /** A request that is read comes out in increasing order exactly when the index 65535, after which the
      16-bit offset starts again at 0, is not followed by another. */
  lemma {:induction false} ReadIsIncreasing(diffs: seq<nat>, indexes: seq<nat>)
    requires Readable(diffs) && |indexes| == |diffs| && forall k | 0 <= k < |diffs| :: indexes[k] == Index(diffs, k)
    ensures Increasing(indexes) <==> forall k | 0 <= k < |indexes| :: k + 1 < |indexes| ==> indexes[k] != MAX16
  {
    if forall k | 0 <= k < |indexes| :: k + 1 < |indexes| ==> indexes[k] != MAX16 {
      forall k | 0 < k < |indexes| ensures indexes[k - 1] < indexes[k] {
        var j := k - 1;
        assert indexes[j] != MAX16;
        assert Index(diffs, k) == diffs[k] + Offset(diffs, k) && Offset(diffs, k) == indexes[j] + 1;
      }
      Chain(indexes);
    } else {
      var k :| 0 <= k < |indexes| && k + 1 < |indexes| && indexes[k] == MAX16;
      assert indexes[k + 1] <= MAX16;
    }
  }

  lemma Chain(s: seq<nat>)
    requires forall k | 0 < k < |s| :: s[k - 1] < s[k]
    ensures Increasing(s)
  {
    for j := 0 to |s|
      invariant forall i, k | 0 <= i < k < j :: s[i] < s[k]
    {
      assert j > 0 ==> s[j - 1] < s[j];
    }
  }

  lemma NotIncreasing()
    ensures Readable([MAX16, 0]) && Index([MAX16, 0], 0) == MAX16 && Index([MAX16, 0], 1) == 0
  {
  }

  // ---------------------------------------------------------------- short ids

  const TWO32 := 0x1_0000_0000
  const TWO48 := 0x1_0000_0000_0000

  /** A short id is written as its low four bytes and its next two. */
  function LowPart(id: nat): nat {
    id % TWO32
  }

  function HighPart(id: nat): nat {
    id / TWO32 % 0x1_0000
  }

  function JoinParts(low: nat, high: nat): nat {
    high * TWO32 + low
  }

  /** Packing keeps exactly the low 48 bits, so every short id survives it. */
  lemma ShortIdRoundTrip(id: nat)
    ensures JoinParts(LowPart(id), HighPart(id)) == id % TWO48
    ensures JoinParts(LowPart(id), HighPart(id)) == id <==> id < TWO48
  {
    var q := id / TWO32;
    assert id == q * TWO32 + id % TWO32;
    assert q == q / 0x1_0000 * 0x1_0000 + q % 0x1_0000;
    assert id == q / 0x1_0000 * TWO48 + (q % 0x1_0000 * TWO32 + id % TWO32);
  }
}
