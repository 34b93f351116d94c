/** Numbers in positional notation: values of digit strings, the shortest digits of a number, and the
    multiply-and-add step that radix conversion repeats. */
module Radix {
  import opened Common

  // ---------------------------------------------------------------- powers

  function Pow(b: nat, k: nat): (r: nat)
    ensures b > 0 ==> r > 0
  {
    if k == 0 then 1 else b * Pow(b, k - 1)
  }

  lemma PowNext(b: nat, k: nat)
    requires k > 0
    ensures Pow(b, k) == b * Pow(b, k - 1)
  {
  }

  lemma PowZero(b: nat)
    ensures Pow(b, 0) == 1
  {
  }

  lemma MulAssoc(a: nat, b: nat, c: nat)
    ensures a * (b * c) == a * b * c
  {
  }

  lemma {:induction false} PowAdd(b: nat, i: nat, j: nat)
    ensures Pow(b, i + j) == Pow(b, i) * Pow(b, j)
  {
    hide Pow;
    if i == 0 {
      PowZero(b);
    } else {
      PowAdd(b, i - 1, j);
      PowNext(b, i);
      PowNext(b, i + j);
      MulAssoc(b, Pow(b, i - 1), Pow(b, j));
    }
  }

  lemma {:induction false} PowMul(b: nat, i: nat, j: nat)
    ensures Pow(Pow(b, i), j) == Pow(b, i * j)
  {
    hide Pow;
    if j == 0 {
      PowZero(b);
      PowZero(Pow(b, i));
    } else {
      PowMul(b, i, j - 1);
      PowNext(Pow(b, i), j);
      PowAdd(b, i, i * (j - 1));
      assert i + i * (j - 1) == i * j;
    }
  }

  lemma MulLess(a: nat, b: nat, c: nat, d: nat)
    requires a <= b && c <= d
    ensures a * c <= b * d
  {
    assert a * c <= a * d;
    assert a * d <= b * d;
  }

  lemma MulStrict(a: nat, b: nat, y: nat)
    requires a < b && y > 0
    ensures a * y < b * y
  {
  }

  lemma {:induction false} PowBase(a: nat, b: nat, k: nat)
    requires a <= b
    ensures Pow(a, k) <= Pow(b, k)
  {
    if k > 0 {
      PowBase(a, b, k - 1);
      MulLess(a, b, Pow(a, k - 1), Pow(b, k - 1));
    }
  }

  lemma PowExponent(b: nat, i: nat, j: nat)
    requires b > 0 && i <= j
    ensures Pow(b, i) <= Pow(b, j)
  {
    PowAdd(b, i, j - i);
    MulLess(Pow(b, i), Pow(b, i), 1, Pow(b, j - i));
  }

  lemma {:induction false} PowStrict(a: nat, b: nat, k: nat)
    requires a < b && k > 0
    ensures Pow(a, k) < Pow(b, k)
  {
    PowBase(a, b, k - 1);
    PowNext(a, k);
    PowNext(b, k);
    var x, y := Pow(a, k - 1), Pow(b, k - 1);
    MulLess(a, a, x, y);
    MulStrict(a, b, y);
  }

  /** If `len` digits in base `m` always fit in `p * len / q` digits in base `b`, rounded up, then they fit
      in `len * p / q + 1` digits. */
  lemma Fits(m: nat, b: nat, p: nat, q: nat, len: nat)
    requires b > 0 && q > 0 && Pow(m, q) <= Pow(b, p)
    ensures Pow(m, len) <= Pow(b, len * p / q + 1)
  {
    hide Pow;
    var size := len * p / q + 1;
    RoundedUp(len * p, q);
    PowBase(Pow(m, q), Pow(b, p), len);
    PowMul(m, q, len);
    PowMul(b, p, len);
    Commute(q, len);
    Commute(p, len);
    PowExponent(b, len * p, size * q);
    PowMul(b, size, q);
    PowMul(m, len, q);
    if Pow(m, len) > Pow(b, size) {
      PowStrict(Pow(b, size), Pow(m, len), q);
      assert false;
    }
  }

  lemma RoundedUp(x: nat, q: nat)
    requires q > 0
    ensures x <= (x / q + 1) * q
  {
    assert x == x / q * q + x % q;
  }

  // ---------------------------------------------------------------- digits

  ghost predicate AreDigits(base: nat, s: seq<nat>) {
    forall i | 0 <= i < |s| :: s[i] < base
  }

  /** The value of digits, most significant first. */
  ghost function Value(base: nat, s: seq<nat>): nat {
    if s == [] then 0 else Value(base, s[..|s| - 1]) * base + s[|s| - 1]
  }

  /** The digits of a number without leading zeros. */
  ghost function Digits(base: nat, v: nat): seq<nat>
    requires base > 1
  {
    if v == 0 then [] else
    DivLess(v, base);
    Digits(base, v / base) + [v % base]
  }

  lemma DivLess(v: nat, base: nat)
    requires v > 0 && base > 1
    ensures v / base < v
  {
    assert v == v / base * base + v % base;
    if v / base >= v {
      MulLess(v, v / base, 2, base);
      assert false;
    }
  }

  lemma Division(v: nat, base: nat)
    requires base > 0
    ensures v == v / base * base + v % base && v % base < base
    ensures v / base == 0 ==> v % base == v
  {
  }

  lemma {:induction false} DigitsValue(base: nat, v: nat)
    requires base > 1
    ensures Value(base, Digits(base, v)) == v && AreDigits(base, Digits(base, v))
    ensures v > 0 ==> Digits(base, v) != [] && Digits(base, v)[0] != 0
    decreases v
  {
    if v > 0 {
      DivLess(v, base);
      DigitsValue(base, v / base);
      var d := Digits(base, v / base);
      assert (d + [v % base])[..|d|] == d;
      Division(v, base);
    }
  }

  /** The digits of the value are the digits themselves when the first is not zero. */
  lemma {:induction false} ValueDigits(base: nat, s: seq<nat>)
    requires base > 1 && AreDigits(base, s) && (s != [] ==> s[0] != 0)
    ensures Digits(base, Value(base, s)) == s
    ensures s != [] ==> Value(base, s) > 0
  {
    if s != [] {
      var n := |s| - 1;
      var rest := s[..n];
      ValueDigits(base, rest);
      DivMod(Value(base, rest), s[n], base);
      assert s == rest + [s[n]];
      if rest != [] {
        MulLess(1, Value(base, rest), 1, base);
      }
    }
  }

  /** Leading zeros do not count. */
  lemma {:induction false} ValueZeros(base: nat, s: seq<nat>, k: nat)
    requires k <= |s| && forall i | 0 <= i < k :: s[i] == 0
    ensures Value(base, s) == Value(base, s[k..])
    decreases |s|
  {
    if k == |s| {
      assert s[k..] == [];
      if k > 0 {
        ValueZeros(base, s[..k - 1], k - 1);
        assert s[..k - 1][k - 1..] == [];
      }
    } else {
      var n := |s| - 1;
      ValueZeros(base, s[..n], k);
      assert s[k..][..n - k] == s[..n][k..];
    }
  }

  lemma {:induction false} ValueConcat(base: nat, a: seq<nat>, b: seq<nat>)
    ensures Value(base, a + b) == Value(base, a) * Pow(base, |b|) + Value(base, b)
    decreases |b|
  {
    if b == [] {
      assert a + b == a;
    } else {
      var n := |b| - 1;
      ValueConcat(base, a, b[..n]);
      assert (a + b)[..|a| + n] == a + b[..n];
      Distribute(Value(base, a), Pow(base, n), Value(base, b[..n]), base);
    }
  }

  lemma Distribute(x: nat, p: nat, y: nat, base: nat)
    ensures (x * p + y) * base == x * (base * p) + y * base
  {
    assert x * p * base == x * (base * p);
  }

  lemma {:induction false} ValueBound(base: nat, s: seq<nat>)
    requires AreDigits(base, s)
    ensures Value(base, s) < Pow(base, |s|)
  {
    if s != [] {
      var n := |s| - 1;
      ValueBound(base, s[..n]);
      MulLess(Value(base, s[..n]) + 1, Pow(base, n), base, base);
      assert (Value(base, s[..n]) + 1) * base == Value(base, s[..n]) * base + base;
    }
  }

  // ---------------------------------------------------------------- multiply and add

  /** One digit of a multiply-and-add: the value of the suffix from `j` with its carry. */
  lemma CarryStep(base: nat, mult: nat, digit: nat, done: nat, carry: nat, add: nat, suffix: nat, p: nat)
    requires base > 0 && done + carry * p == suffix * mult + add
    ensures var t := carry + mult * digit;
            t % base * p + done + t / base * (base * p) == (digit * p + suffix) * mult + add
  {
    var t := carry + mult * digit;
    var q, r := t / base, t % base;
    assert t == q * base + r;
    calc {
      r * p + done + q * (base * p);
      (q * base + r) * p + done;
      (carry + mult * digit) * p + done;
      mult * digit * p + (done + carry * p);
      (digit * p + suffix) * mult + add;
    }
  }

  function Total(carry: nat, mult: nat, digit: nat): nat {
    carry + mult * digit
  }

  function Low(t: nat, base: nat): (r: nat)
    requires base > 0
    ensures r < base
  {
    t % base
  }

  function High(t: nat, base: nat): nat
    requires base > 0
  {
    t / base
  }

  /** `buf = buf * mult + add` in place, from the least significant digit, touching at least the last
      `length` digits; what does not fit is left as the carry. */
  method MultiplyAdd(buf: array<nat>, base: nat, mult: nat, add: nat, length: nat) returns (newLength: nat, carry: nat)
    requires base > 1 && AreDigits(base, buf[..]) && length <= buf.Length
    requires forall i | 0 <= i < buf.Length - length :: buf[i] == 0
    modifies buf
    ensures AreDigits(base, buf[..]) && length <= newLength <= buf.Length
    ensures forall i | 0 <= i < buf.Length - newLength :: buf[i] == 0
    ensures Value(base, buf[..]) + carry * Pow(base, buf.Length) == old(Value(base, buf[..])) * mult + add
  {
    hide Value, Pow, Suffix, Total, Low, High;
    ghost var was := buf[..];
    var i: nat := 0;
    carry := add;
    SuffixStart(base, mult, add, was);
    while (carry != 0 || i < length) && i < buf.Length
      invariant i <= buf.Length && AreDigits(base, buf[..])
      invariant Suffix(base, mult, add, was, buf[..], carry, i)
    {
      var t := Total(carry, mult, buf[buf.Length - 1 - i]);
      var digit := Low(t, base);
      SuffixNext(base, mult, add, was, buf[..], carry, i);
      ghost var mid := buf[..];
      buf[buf.Length - 1 - i] := digit;
      assert buf[..] == mid[buf.Length - 1 - i := digit];
      carry := High(t, base);
      i := i + 1;
    }
    newLength := i;
    SuffixUntouched(base, mult, add, was, buf[..], carry, i);
    Finish(base, mult, add, was, buf[..], carry, i);
  }

  /** After `i` digits: the last `i` digits and the carry stand for the product of the old ones, the others
      are as they were. */
  ghost predicate Suffix(base: nat, mult: nat, add: nat, was: seq<nat>, now: seq<nat>, carry: nat, i: nat) {
    && i <= |was| == |now| && now[..|was| - i] == was[..|was| - i]
    && Value(base, now[|was| - i..]) + carry * Pow(base, i) == Value(base, was[|was| - i..]) * mult + add
  }

  lemma SuffixUntouched(base: nat, mult: nat, add: nat, was: seq<nat>, now: seq<nat>, carry: nat, i: nat)
    requires Suffix(base, mult, add, was, now, carry, i)
    ensures |now| == |was| && forall k | 0 <= k < |was| - i :: now[k] == was[k]
  {
    hide Value, Pow;
    assert forall k | 0 <= k < |was| - i :: now[k] == now[..|was| - i][k] && was[k] == was[..|was| - i][k];
  }

  lemma SuffixNext(base: nat, mult: nat, add: nat, was: seq<nat>, now: seq<nat>, carry: nat, i: nat)
    requires base > 0 && Suffix(base, mult, add, was, now, carry, i) && i < |now|
    ensures var j := |now| - 1 - i;
            var t := Total(carry, mult, now[j]);
            Suffix(base, mult, add, was, now[j := Low(t, base)], High(t, base), i + 1)
  {
    hide Value, Pow;
    var j := |now| - 1 - i;
    SuffixUntouched(base, mult, add, was, now, carry, i);
    var t := Total(carry, mult, now[j]);
    var next := now[j := Low(t, base)];
    SuffixStep(base, was, j);
    SuffixStep(base, next, j);
    assert next[j + 1..] == now[j + 1..];
    assert next[..j] == was[..j];
    CarryStep(base, mult, was[j], Value(base, now[j + 1..]), carry, add, Value(base, was[j + 1..]), Pow(base, i));
  }

  lemma SuffixStart(base: nat, mult: nat, add: nat, was: seq<nat>)
    ensures Suffix(base, mult, add, was, was, add, 0)
  {
    assert was[|was|..] == [];
  }

  lemma SuffixStep(base: nat, s: seq<nat>, j: nat)
    requires j < |s|
    ensures Value(base, s[j..]) == s[j] * Pow(base, |s| - j - 1) + Value(base, s[j + 1..])
    ensures Pow(base, |s| - j) == base * Pow(base, |s| - j - 1)
  {
    assert s[j..] == [s[j]] + s[j + 1..];
    ValueConcat(base, [s[j]], s[j + 1..]);
    assert [s[j]][..0] == [];
  }

  lemma Finish(base: nat, mult: nat, add: nat, was: seq<nat>, now: seq<nat>, carry: nat, i: nat)
    requires Suffix(base, mult, add, was, now, carry, i)
    requires i == |was| || (carry == 0 && forall k | 0 <= k < |was| - i :: was[k] == 0)
    ensures Value(base, now) + carry * Pow(base, |was|) == Value(base, was) * mult + add
  {
    hide Value, Pow;
    var k := |was| - i;
    if i == |was| {
      assert now[0..] == now && was[0..] == was;
    } else {
      SuffixUntouched(base, mult, add, was, now, carry, i);
      ValueZeros(base, now, k);
      ValueZeros(base, was, k);
      assert carry * Pow(base, i) == 0 && carry * Pow(base, |was|) == 0;
    }
  }
}
