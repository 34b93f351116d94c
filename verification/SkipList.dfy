/** The heights that skip pointers lead to (src/chain.cpp), and how few steps back they leave. */
module SkipList {
  import opened Common

  /** Bitwise and. */
  function BitAnd(a: nat, b: nat): (r: nat)
    ensures r <= a && r <= b
  {
    if a == 0 || b == 0 then 0 else 2 * BitAnd(a / 2, b / 2) + if a % 2 == 1 && b % 2 == 1 then 1 else 0
  }

  /** `n & (n - 1)`: the lowest one bit cleared. */
  function InvertLowestOne(n: nat): (r: nat)
    ensures r <= n && (n > 0 ==> r < n)
  {
    if n == 0 then 0 else BitAnd(n, n - 1)
  }

  /** The height that the skip pointer of a block leads to: always below the block. */
  function SkipHeight(height: nat): (r: nat)
    ensures height > 0 ==> r < height
    ensures height == 0 ==> r == 0
  {
    if height < 2 then 0
    else if height % 2 == 1 then InvertLowestOne(InvertLowestOne(height - 1)) + 1
    else InvertLowestOne(height)
  }

  /** Whether the skip pointer is followed on the way from `walk` down to `height`: not when it leads too far,
      nor when that of the block before is better. */
  predicate Follow(walk: nat, height: nat)
    requires height < walk
  {
    var skip, prev := SkipHeight(walk), SkipHeight(walk - 1);
    skip == height || (skip > height && !(prev < skip - 2 && prev >= height))
  }

  function Next(walk: nat, height: nat): (r: nat)
    requires height < walk
    ensures height <= r < walk
  {
    if Follow(walk, height) then SkipHeight(walk) else walk - 1
  }

  /** The number of steps from `walk` down to `height`. */
  ghost function Steps(walk: nat, height: nat): nat
    requires height <= walk
  {
    if walk == height then 0 else 1 + Steps(Next(walk, height), height)
  }

  // ---------------------------------------------------------------- one bits

  /** The number of one bits. */
  ghost function Ones(n: nat): nat {
    if n == 0 then 0 else n % 2 + Ones(n / 2)
  }

  lemma {:induction false} AndSelf(n: nat)
    ensures BitAnd(n, n) == n
  {
    if n > 0 {
      AndSelf(n / 2);
    }
  }

  lemma ClearDouble(n: nat)
    ensures InvertLowestOne(2 * n) == 2 * InvertLowestOne(n) && InvertLowestOne(2 * n + 1) == 2 * n
  {
    AndSelf(n);
    assert 2 * n / 2 == n && 2 * n % 2 == 0 && (2 * n + 1) / 2 == n;
    if n > 0 {
      assert (2 * n - 1) / 2 == n - 1;
    }
  }

  lemma OnesDouble(n: nat)
    ensures Ones(2 * n) == Ones(n) && Ones(2 * n + 1) == Ones(n) + 1
  {
    assert 2 * n / 2 == n && (2 * n + 1) / 2 == n && 2 * n % 2 == 0 && (2 * n + 1) % 2 == 1;
  }

  lemma {:induction false} OnesCleared(n: nat)
    requires n > 0
    ensures Ones(InvertLowestOne(n)) == Ones(n) - 1 && InvertLowestOne(n) % 2 == 0
  {
    hide InvertLowestOne, Ones;
    var q := n / 2;
    OnesDouble(q);
    ClearDouble(q);
    if n % 2 == 1 {
      assert n == 2 * q + 1;
    } else {
      assert n == 2 * q;
      OnesCleared(q);
      OnesDouble(InvertLowestOne(q));
    }
  }

  lemma {:induction false} OnesBound(n: nat, j: nat)
    requires n < Pow2(j)
    ensures Ones(n) <= j
  {
    if n > 0 {
      OnesBound(n / 2, j - 1);
    }
  }

  lemma OnesPositive(n: nat)
    ensures Ones(n) > 0 <==> n > 0
  {
    if n > 0 {
      OnesCleared(n);
    }
  }

  lemma OneLess(n: nat)
    requires n % 2 == 1
    ensures Ones(n) == Ones(n - 1) + 1
  {
    OnesDouble(n / 2);
    assert n == 2 * (n / 2) + 1;
  }

  lemma {:induction false} AllOnes(j: nat)
    ensures Ones(Pow2(j) - 1) == j
  {
    if j > 0 {
      AllOnes(j - 1);
      OnesDouble(Pow2(j - 1) - 1);
      assert Pow2(j) - 1 == 2 * (Pow2(j - 1) - 1) + 1;
    }
  }

  // ---------------------------------------------------------------- high and low parts

  ghost function Multiple(c: nat, j: nat): nat {
    c * Pow2(j)
  }

  lemma Twice(c: nat, j: nat)
    requires j > 0
    ensures Multiple(c, j) == 2 * Multiple(c, j - 1) && Pow2(j) == 2 * Pow2(j - 1)
  {
    assert c * (2 * Pow2(j - 1)) == 2 * (c * Pow2(j - 1));
  }

  lemma Halves(c: nat, j: nat)
    requires j > 0
    ensures Multiple(2 * c, j - 1) == Multiple(c, j) && Multiple(2 * c + 1, j - 1) == Multiple(c, j) + Pow2(j - 1)
  {
    Twice(c, j);
    var p := Pow2(j - 1);
    assert 2 * c * p == 2 * (c * p) && (2 * c + 1) * p == 2 * c * p + p;
  }

  lemma LowerHalf(c: nat, j: nat)
    requires c > 0
    ensures Multiple(c - 1, j) + Pow2(j) == Multiple(c, j)
  {
    assert (c - 1) * Pow2(j) == c * Pow2(j) - Pow2(j);
  }

  /** Clearing the lowest one bit of the low part leaves the high part alone. */
  lemma {:induction false} ClearLow(c: nat, j: nat, x: nat)
    requires 0 < x < Pow2(j)
    ensures InvertLowestOne(Multiple(c, j) + x) == Multiple(c, j) + InvertLowestOne(x)
  {
    hide Multiple, InvertLowestOne;
    Twice(c, j);
    var half, q := Multiple(c, j - 1), x / 2;
    ClearDouble(half + q);
    ClearDouble(q);
    if x % 2 == 0 {
      assert x == 2 * q && 2 * half + x == 2 * (half + q);
      ClearLow(c, j - 1, q);
    } else {
      assert x == 2 * q + 1 && 2 * half + x == 2 * (half + q) + 1;
    }
  }

  /** With no low part the lowest one bit of the high part is cleared. */
  lemma {:induction false} ClearHigh(c: nat, j: nat)
    requires c % 2 == 1
    ensures InvertLowestOne(Multiple(c, j)) == Multiple(c - 1, j)
  {
    hide InvertLowestOne;
    if j == 0 {
      assert Multiple(c, 0) == c && Multiple(c - 1, 0) == c - 1;
      ClearDouble(c / 2);
      assert c == 2 * (c / 2) + 1;
    } else {
      hide Multiple;
      Twice(c, j);
      Twice(c - 1, j);
      ClearHigh(c, j - 1);
      ClearDouble(Multiple(c, j - 1));
    }
  }

  /** Clearing twice, the high part being odd: the low part loses two one bits, or the high part is lost. */
  lemma ClearTwo(c: nat, j: nat, z: nat)
    requires c % 2 == 1 && z < Pow2(j)
    ensures var r := InvertLowestOne(InvertLowestOne(Multiple(c, j) + z));
            && (Ones(z) >= 2 ==> r == Multiple(c, j) + InvertLowestOne(InvertLowestOne(z)))
            && (Ones(z) == 1 ==> r == Multiple(c - 1, j))
            && (Ones(z) == 0 ==> r <= Multiple(c - 1, j))
  {
    hide InvertLowestOne, Ones, Pow2, Multiple;
    OnesPositive(z);
    ClearHigh(c, j);
    if z > 0 {
      ClearLow(c, j, z);
      OnesCleared(z);
      var y := InvertLowestOne(z);
      OnesPositive(y);
      if y > 0 {
        ClearLow(c, j, y);
      }
    }
  }

  lemma TwoCleared(z: nat)
    requires z % 2 == 0 && Ones(z) >= 2
    ensures var y := InvertLowestOne(InvertLowestOne(z));
            y < z && y % 2 == 0 && Ones(y + 1) == Ones(z) - 1
  {
    hide InvertLowestOne, Ones;
    OnesPositive(z);
    OnesCleared(z);
    var a := InvertLowestOne(z);
    OnesPositive(a);
    OnesCleared(a);
    OneLess(InvertLowestOne(a) + 1);
  }

  /** The skip pointer of the block before is better only where two steps lose a one bit. */
  lemma PreviousIsBetter(x: nat)
    requires x >= 2 && x % 2 == 0 && InvertLowestOne(InvertLowestOne(x - 2)) + 1 < InvertLowestOne(x) - 2
    ensures Ones(x - 2) <= Ones(x)
  {
    hide InvertLowestOne, Ones;
    var u := x / 2;
    assert x == 2 * u && x - 2 == 2 * (u - 1);
    OnesDouble(u);
    OnesDouble(u - 1);
    ClearDouble(u);
    ClearDouble(u - 1);
    ClearDouble(InvertLowestOne(u - 1));
    if u % 2 == 1 {
      OneLess(u);
    } else {
      var w := u / 2;
      assert u == 2 * w && u - 1 == 2 * (w - 1) + 1;
      OnesDouble(w);
      OnesDouble(w - 1);
      ClearDouble(w);
      ClearDouble(w - 1);
      if w % 2 == 1 {
        OneLess(w);
      } else {
        assert w == 2 * (w / 2) && w - 1 == 2 * (w / 2 - 1) + 1;
        ClearDouble(w / 2);
        ClearDouble(w / 2 - 1);
        assert false;
      }
    }
  }

  // ---------------------------------------------------------------- from the upper to the lower half

  /** Where skip pointers lead to from a height above `m`: one bits of what is above it are cleared, or they
      lead to the bottom of the lower half, which starts at `low`, or below. */
  ghost predicate SkipsAbove(low: nat, m: nat, x: nat) {
    && m % 2 == 0 && low + 2 <= m
    && (x % 2 == 0 && x > 0 ==> SkipHeight(m + x) == m + InvertLowestOne(x))
    && (x % 2 == 1 ==>
          && (Ones(x - 1) >= 2 ==> SkipHeight(m + x) == m + InvertLowestOne(InvertLowestOne(x - 1)) + 1)
          && (Ones(x - 1) == 1 ==> SkipHeight(m + x) == low + 1)
          && (Ones(x - 1) == 0 ==> SkipHeight(m + x) <= low + 1))
  }

  lemma SkipsFrom(c: nat, j: nat, x: nat)
    requires c % 2 == 1 && 0 < j && x < Pow2(j)
    ensures SkipsAbove(Multiple(c - 1, j), Multiple(c, j), x)
  {
    hide InvertLowestOne, Ones, Pow2, Multiple;
    Twice(c, j);
    LowerHalf(c, j);
    if x % 2 == 0 && x > 0 {
      ClearLow(c, j, x);
    } else if x % 2 == 1 {
      ClearTwo(c, j, x - 1);
    }
  }

  /** From an odd height the skip pointer is followed unless it leads too far. */
  lemma OddFollows(h: nat, t: nat)
    requires h % 2 == 1 && h >= 3 && t < h && SkipHeight(h) >= t
    ensures Next(h, t) == SkipHeight(h)
  {
  }

  /** A pointer that does not lead too far is left alone only for a better one of the block before. */
  lemma NotFollowed(h: nat, t: nat)
    requires t < SkipHeight(h) < h && !Follow(h, t)
    ensures t <= SkipHeight(h - 1) < SkipHeight(h) - 2
  {
  }

  /** From the bottom of a block of heights at most one step is left. */
  lemma OneStep(n: nat, t: nat)
    requires t <= n <= t + 1
    ensures Steps(n, t) <= 1
  {
  }

  /** The next step from an odd height above `m` to a target below it: two one bits are lost; or the walk is as
      good as over; or it is at `m` after one step or after two. */
  lemma FromOdd(low: nat, m: nat, x: nat, t: nat)
    requires x % 2 == 1 && low <= t < m && SkipsAbove(low, m, x) && SkipsAbove(low, m, x - 1)
    requires x > 1 ==> SkipsAbove(low, m, x - 2)
    ensures var n := Next(m + x, t);
            if Ones(x - 1) >= 2 then m <= n < m + x && n % 2 == 1 && Ones(n - m) == Ones(x) - 2
            else n <= t + 1 || n == m || (n > m && Next(n, t) == m)
  {
    hide InvertLowestOne, Ones, SkipHeight;
    var h := m + x;
    OneLess(x);
    OnesPositive(x - 1);
    if Ones(x - 1) >= 2 {
      TwoCleared(x - 1);
      OddFollows(h, t);
    } else if SkipHeight(h) >= t {
      OddFollows(h, t);
    } else if Ones(x - 1) == 1 {
      OneBit(x - 1);
      assert Next(h, t) == h - 1;
    }
  }

  lemma OneBit(z: nat)
    requires Ones(z) == 1
    ensures z > 0 && InvertLowestOne(z) == 0
  {
    hide InvertLowestOne, Ones;
    OnesPositive(z);
    OnesCleared(z);
    OnesPositive(InvertLowestOne(z));
  }

  /** From an even height above `m`: a step that loses a one bit; or two steps, to an odd height with fewer one
      bits or to the bottom of the lower half. */
  lemma FromEven(low: nat, m: nat, x: nat, t: nat)
    requires x % 2 == 0 && 0 < x && low <= t < m && SkipsAbove(low, m, x) && SkipsAbove(low, m, x - 1)
    ensures var n := Next(m + x, t);
            || (m <= n < m + x && n % 2 == 0 && Ones(n - m) == Ones(x) - 1)
            || (n > m && var n2 := Next(n, t);
                n2 <= t + 1 || (m <= n2 < m + x && n2 % 2 == 1 && Ones(n2 - m) < Ones(x) && Ones(x) >= 2))
  {
    hide InvertLowestOne, Ones, SkipHeight, Follow;
    OnesCleared(x);
    if !Follow(m + x, t) {
      Detour(low, m, x, t);
    }
  }

  lemma Detour(low: nat, m: nat, x: nat, t: nat)
    requires x % 2 == 0 && 0 < x && low <= t < m && SkipsAbove(low, m, x) && SkipsAbove(low, m, x - 1)
    requires !Follow(m + x, t)
    ensures var n := Next(m + x - 1, t);
            n <= t + 1 || (m <= n < m + x && n % 2 == 1 && Ones(n - m) < Ones(x) && Ones(x) >= 2)
  {
    hide InvertLowestOne, Ones, SkipHeight, Follow, Next;
    NotFollowed(m + x, t);
    OddFollows(m + x - 1, t);
    OnesPositive(x - 2);
    if Ones(x - 2) >= 2 {
      TwoCleared(x - 2);
      PreviousIsBetter(x);
    }
  }

  // ---------------------------------------------------------------- the bound

  /** Four times the steps from the top of `2^j` heights. */
  ghost function TopBound(j: nat): nat {
    j * j + 9 * j
  }

  lemma TopGrows(j: nat)
    requires j > 0
    ensures TopBound(j) == TopBound(j - 1) + 2 * j + 8 && TopBound(0) == 0
  {
    assert j * j == (j - 1) * (j - 1) + 2 * j - 1;
  }

  /** The heights from a multiple of `2^k` up to the next. */
  ghost predicate Within(c: nat, k: nat, h: nat) {
    Multiple(c, k) <= h < Multiple(c, k) + Pow2(k)
  }

  lemma {:induction false} FromTop(c: nat, j: nat, t: nat)
    requires Within(c, j, t)
    ensures 4 * Steps(Multiple(c, j) + Pow2(j) - 1, t) <= TopBound(j)
    decreases j, 0
  {
    hide Multiple, Next, TopBound;
    if j > 0 {
      Twice(c, j);
      Halves(c, j);
      TopGrows(j);
      var half := Pow2(j - 1);
      if t >= Multiple(2 * c + 1, j - 1) {
        FromTop(2 * c + 1, j - 1, t);
      } else if j == 1 {
        FromUpper(2 * c + 1, 0, 0, t);
      } else {
        AllOnes(j - 1);
        assert half == 2 * Pow2(j - 2);
        FromUpper(2 * c + 1, j - 1, half - 1, t);
      }
    }
  }

  /** Four times the steps that it may take to lose the one bits of `x`. */
  ghost function Loss(x: nat): nat {
    if x % 2 == 1 then 2 * Ones(x) + 10 else if x == 0 then 4 else 4 * Ones(x) + 12
  }

  lemma {:induction false} FromUpper(c: nat, j: nat, x: nat, t: nat)
    requires c % 2 == 1 && x < Pow2(j) && Multiple(c - 1, j) <= t < Multiple(c, j)
    ensures 4 * Steps(Multiple(c, j) + x, t) <= TopBound(j) + Loss(x)
    decreases j, 1, x
  {
    hide Multiple, InvertLowestOne, Next, SkipsAbove, Ones, TopBound;
    var low, m := Multiple(c - 1, j), Multiple(c, j);
    LowerHalf(c, j);
    if x == 0 {
      AtMiddle(c, j, t);
      var n := Next(m, t);
      if n == m - 1 {
        FromTop(c - 1, j, t);
      }
    } else {
      SkipsFrom(c, j, x);
      SkipsFrom(c, j, x - 1);
      if x > 1 {
        SkipsFrom(c, j, x - 2);
      }
      if x % 2 == 1 { UpperOdd(c, j, x, t); } else { UpperEven(c, j, x, t); }
    }
  }

  /** From the middle the walk goes on below it, or is over. */
  lemma AtMiddle(c: nat, j: nat, t: nat)
    requires c % 2 == 1 && Multiple(c - 1, j) <= t < Multiple(c, j)
    ensures var n := Next(Multiple(c, j), t); n == t || n == Multiple(c, j) - 1
  {
    hide Multiple, InvertLowestOne;
    LowerHalf(c, j);
    if j > 0 {
      Twice(c, j);
      ClearHigh(c, j);
    }
  }

  lemma UpperOdd(c: nat, j: nat, x: nat, t: nat)
    requires c % 2 == 1 && x < Pow2(j) && x % 2 == 1 && Multiple(c - 1, j) <= t < Multiple(c, j)
    requires var low, m := Multiple(c - 1, j), Multiple(c, j);
             SkipsAbove(low, m, x) && SkipsAbove(low, m, x - 1) && (x > 1 ==> SkipsAbove(low, m, x - 2))
    ensures 4 * Steps(Multiple(c, j) + x, t) <= TopBound(j) + Loss(x)
    decreases j, 1, x, 0
  {
    hide Multiple, InvertLowestOne, Next, SkipsAbove, Ones, TopBound;
    var m := Multiple(c, j);
    var n := Next(m + x, t);
    FromOdd(Multiple(c - 1, j), m, x, t);
    EvenMiddle(Multiple(c - 1, j), m, x);
    OneLess(x);
    if Ones(x - 1) >= 2 {
      FromUpper(c, j, n - m, t);
    } else if n <= t + 1 {
      OneStep(n, t);
    } else {
      FromUpper(c, j, 0, t);
    }
  }

  lemma EvenMiddle(low: nat, m: nat, x: nat)
    requires SkipsAbove(low, m, x)
    ensures m % 2 == 0
  {
  }

  lemma UpperEven(c: nat, j: nat, x: nat, t: nat)
    requires c % 2 == 1 && x < Pow2(j) && x % 2 == 0 && x > 0 && Multiple(c - 1, j) <= t < Multiple(c, j)
    requires var low, m := Multiple(c - 1, j), Multiple(c, j); SkipsAbove(low, m, x) && SkipsAbove(low, m, x - 1)
    ensures 4 * Steps(Multiple(c, j) + x, t) <= TopBound(j) + Loss(x)
    decreases j, 1, x, 0
  {
    hide Multiple, InvertLowestOne, Next, SkipsAbove, Ones, TopBound;
    var m := Multiple(c, j);
    var n := Next(m + x, t);
    FromEven(Multiple(c - 1, j), m, x, t);
    EvenMiddle(Multiple(c - 1, j), m, x);
    OnesPositive(x);
    if m <= n < m + x && n % 2 == 0 && Ones(n - m) == Ones(x) - 1 {
      FromUpper(c, j, n - m, t);
    } else {
      var n2 := Next(n, t);
      if n2 <= t + 1 {
        OneStep(n2, t);
      } else {
        FromUpper(c, j, n2 - m, t);
      }
    }
  }

  /** From a height to one below, both among `2^k` heights from a multiple of that on, it takes at most
      `(k^2 + 11 * k) / 4` steps. */
  lemma {:induction false} StepsAreFew(c: nat, k: nat, h: nat, t: nat)
    requires Within(c, k, h) && Within(c, k, t) && t <= h
    ensures 4 * Steps(h, t) <= k * k + 11 * k
    decreases k
  {
    hide InvertLowestOne, Next, Multiple, TopBound;
    if h != t {
      assert k > 0;
      Twice(c, k);
      Halves(c, k);
      BoundGrows(k);
      var m := Multiple(2 * c + 1, k - 1);
      if h < m {
        StepsAreFew(2 * c, k - 1, h, t);
      } else if t >= m {
        StepsAreFew(2 * c + 1, k - 1, h, t);
      } else {
        LossBound(h - m, k - 1);
        FromUpper(2 * c + 1, k - 1, h - m, t);
      }
    }
  }

  lemma BoundGrows(k: nat)
    requires k > 0
    ensures (k - 1) * (k - 1) + 11 * (k - 1) <= k * k + 11 * k
    ensures TopBound(k - 1) + 4 * k + 4 <= k * k + 11 * k
  {
    assert k * k == (k - 1) * (k - 1) + 2 * k - 1;
  }

  lemma LossBound(x: nat, j: nat)
    requires x < Pow2(j)
    ensures Loss(x) <= 4 * j + 8
  {
    hide Ones;
    OnesBound(x, j);
    OnesPositive(x);
    if x % 2 == 0 && x > 0 {
      OnesDouble(x / 2);
      assert x == 2 * (x / 2);
      OnesBound(x / 2, j - 1);
    }
  }

  lemma StepsNext(walk: nat, height: nat)
    requires height < walk
    ensures Steps(walk, height) == 1 + Steps(if Follow(walk, height) then SkipHeight(walk) else walk - 1, height)
  {
  }

  lemma StepsEnd(height: nat)
    ensures Steps(height, height) == 0
  {
  }

  /** Heights of `k` bits. */
  lemma StepsInBits(k: nat, h: nat, t: nat)
    requires t <= h < Pow2(k)
    ensures 4 * Steps(h, t) <= k * k + 11 * k
  {
    assert Multiple(0, k) == 0;
    StepsAreFew(0, k, h, t);
  }
}
