/** Compression of amounts (src/compressor.cpp): an amount with its trailing decimal zeros counted. */
module Amount {
  import opened Common

  const COIN: nat := 100000000
  const MAX_MONEY: nat := 21000000000 * COIN

  function Pow10(e: nat): (r: nat)
    ensures r > 0
  {
    if e == 0 then 1 else 10 * Pow10(e - 1)
  }

  // ---------------------------------------------------------------- codes without a limit of 64 bits

  /** Takes off trailing zeros, nine in all at most. */
  ghost function Strip(n: nat, e: nat): (nat, nat)
    requires n > 0
  {
    if n % 10 == 0 && e < 9 then Strip(n / 10, e + 1) else (n, e)
  }

  lemma {:induction false} StripFacts(n: nat, e: nat)
    requires n > 0 && e <= 9
    ensures var (m, f) := Strip(n, e);
            0 < m && e <= f <= 9 && n == m * Pow10(f - e) && (f < 9 ==> m % 10 != 0)
    decreases n
  {
    if n % 10 == 0 && e < 9 {
      StripFacts(n / 10, e + 1);
      var (m, f) := Strip(n / 10, e + 1);
      assert Pow10(f - e) == 10 * Pow10(f - e - 1);
      Regroup(m, Pow10(f - e - 1));
    }
  }

  lemma Regroup(m: nat, p: nat)
    ensures m * (10 * p) == 10 * (m * p)
  {
  }

  /** The code of an amount. */
  ghost function Code(n: nat): nat {
    if n == 0 then 0
    else
      var (m, e) := Strip(n, 0);
      StripFacts(n, 0);
      CodeOf(m, e)
  }

  ghost function CodeOf(m: nat, e: nat): nat
    requires m > 0 && (e < 9 ==> m % 10 != 0)
  {
    if e < 9 then 1 + (m / 10 * 9 + m % 10 - 1) * 10 + e else 1 + (m - 1) * 10 + 9
  }

  /** The amount of a code. */
  ghost function Value(x: nat): nat {
    if x == 0 then 0
    else
      var e, z := (x - 1) % 10, (x - 1) / 10;
      if e < 9 then (z / 9 * 10 + z % 9 + 1) * Pow10(e) else (z + 1) * Pow10(9)
  }

  /** The codes of a coin, of a hundredth of it, and of other round amounts. */
  lemma KnownCodes()
    ensures Code(0) == 0 && Code(1) == 1 && Code(1_000_000) == 7 && Code(100_000_000) == 9
    ensures Code(5000 * 100_000_000) == 0x1388 && Code(21_000_000_000 * 100_000_000) == 0x4E3B_29200
  {
    hide Pow10, Strip;
    PowersOfTen();
    StripsAll(1, 0);
    StripsAll(1, 6);
    StripsAll(1, 8);
    StripsAll(500, 9);
    StripsAll(2_100_000_000, 9);
  }

  lemma PowersOfTen()
    ensures Pow10(0) == 1 && Pow10(6) == 1_000_000 && Pow10(8) == 100_000_000 && Pow10(9) == 1_000_000_000
  {
    assert Pow10(3) == 1000;
    assert Pow10(6) == 1_000_000;
  }

  lemma {:induction false} StripsAll(m: nat, e: nat)
    requires 0 < m && e <= 9 && (e < 9 ==> m % 10 != 0)
    ensures m * Pow10(e) > 0 && Code(m * Pow10(e)) == CodeOf(m, e)
  {
    StripsFrom(m, e, 0);
  }

  lemma {:induction false} StripsFrom(m: nat, e: nat, f: nat)
    requires 0 < m && f <= e <= 9 && (e < 9 ==> m % 10 != 0)
    ensures m * Pow10(e - f) > 0 && Strip(m * Pow10(e - f), f) == (m, e)
    decreases e - f
  {
    if f < e {
      StripsFrom(m, e, f + 1);
      Regroup(m, Pow10(e - f - 1));
    }
  }

  /** Decoding undoes coding, for every amount. */
  lemma ValueOfCode(n: nat)
    ensures Value(Code(n)) == n
  {
    if n > 0 {
      StripFacts(n, 0);
      var (m, e) := Strip(n, 0);
      PartsOfCode(m, e);
    }
  }

  lemma PartsOfCode(m: nat, e: nat)
    requires m > 0 && e <= 9 && (e < 9 ==> m % 10 != 0)
    ensures Value(CodeOf(m, e)) == m * Pow10(e)
  {
    hide Pow10, Value;
    if e < 9 {
      var z := m / 10 * 9 + m % 10 - 1;
      ValueAt(CodeOf(m, e), e, z);
      NinthDigits(m, z);
    } else {
      ValueAt(CodeOf(m, e), e, m - 1);
    }
  }

  /** The factor of a code with digit count part `z`. */
  ghost function Factor(e: nat, z: nat): nat {
    if e < 9 then z / 9 * 10 + z % 9 + 1 else z + 1
  }

  lemma ValueAt(x: nat, e: nat, z: nat)
    requires e <= 9 && x == 1 + z * 10 + e
    ensures Value(x) == Factor(e, z) * Pow10(e)
  {
    hide Pow10;
    assert (x - 1) % 10 == e && (x - 1) / 10 == z;
  }

  lemma NinthDigits(m: nat, z: nat)
    requires m % 10 != 0 && z == m / 10 * 9 + m % 10 - 1
    ensures z / 9 * 10 + z % 9 + 1 == m
  {
    assert z / 9 == m / 10 && z % 9 == m % 10 - 1;
  }

  /** Coding undoes decoding, for every code. */
  lemma CodeOfValue(x: nat)
    ensures Code(Value(x)) == x
  {
    if x > 0 {
      hide Pow10, Code, Value;
      var e, z := (x - 1) % 10, (x - 1) / 10;
      ValueAt(x, e, z);
      FactorDigits(e, z);
      CodeAt(Factor(e, z), e);
    }
  }

  lemma FactorDigits(e: nat, z: nat)
    requires e <= 9
    ensures Factor(e, z) > 0 && (e < 9 ==> Factor(e, z) % 10 != 0) && CodeOf(Factor(e, z), e) == 1 + z * 10 + e
  {
    if e < 9 {
      assert Factor(e, z) % 10 == z % 9 + 1 && Factor(e, z) / 10 == z / 9;
    }
  }

  lemma CodeAt(m: nat, e: nat)
    requires m > 0 && e <= 9 && (e < 9 ==> m % 10 != 0)
    ensures Code(m * Pow10(e)) == CodeOf(m, e)
  {
    hide Pow10, CodeOf;
    StripBack(m, e, 0);
  }

  lemma Positive(a: nat, b: nat)
    requires a > 0 && b > 0
    ensures a * b > 0
  {
  }

  lemma {:induction false} StripBack(m: nat, f: nat, e: nat)
    requires m > 0 && e <= f <= 9 && (f < 9 ==> m % 10 != 0)
    ensures m * Pow10(f - e) > 0 && Strip(m * Pow10(f - e), e) == (m, f)
    decreases f - e
  {
    hide Pow10;
    Positive(m, Pow10(f - e));
    if e < f {
      StripBack(m, f, e + 1);
      var k := m * Pow10(f - (e + 1));
      TenTimes(m, f - e);
      StripOnce(k, e);
    } else {
      TenTimes(m, 0);
    }
  }

  lemma TenTimes(m: nat, e: nat)
    ensures e == 0 ==> m * Pow10(e) == m
    ensures e > 0 ==> m * Pow10(e) == 10 * (m * Pow10(e - 1))
  {
    if e > 0 {
      Regroup(m, Pow10(e - 1));
    }
  }

  lemma StripOnce(k: nat, e: nat)
    requires k > 0 && e < 9
    ensures Strip(10 * k, e) == Strip(k, e + 1)
  {
  }

  /** The code of an amount is at most nine times the amount. */
  lemma CodeBound(n: nat)
    ensures Code(n) <= 9 * n
  {
    if n > 0 {
      StripFacts(n, 0);
      var (m, e) := Strip(n, 0);
      PowerGrows(e);
      BoundParts(m, e, Pow10(e));
    }
  }

  lemma {:induction false} PowerGrows(e: nat)
    ensures Pow10(e) >= 1 + 9 * e
  {
    if e > 0 {
      PowerGrows(e - 1);
    }
  }

  lemma BoundParts(m: nat, e: nat, p: nat)
    requires m > 0 && e <= 9 && (e < 9 ==> m % 10 != 0) && p >= 1 + 9 * e
    ensures CodeOf(m, e) <= 9 * (m * p)
  {
    MulMonotone(1 + 9 * e, p, m);
    assert (1 + 9 * e) * m == m + 9 * (e * m) && p * m == m * p;
    MulMonotone(1, m, e);
    assert m * e == e * m;
    if e < 9 {
      assert CodeOf(m, e) == 9 * m + m % 10 - 9 + e;
    }
  }

  // ---------------------------------------------------------------- in 64 bits

  /** `CompressAmount`: the code in 64-bit arithmetic. */
  method CompressAmount(amount: nat) returns (r: nat)
    requires amount < TWO64
    ensures r == Code(amount) % TWO64
  {
    if amount == 0 {
      return 0;
    }
    var n, e := amount, 0;
    while n % 10 == 0 && e < 9
      invariant n > 0 && e <= 9 && Strip(n, e) == Strip(amount, 0)
    {
      n := n / 10;
      e := e + 1;
    }
    StripFacts(amount, 0);
    if e < 9 {
      var d := n % 10;
      assert 1 <= d <= 9;
      n := n / 10;
      r := (1 + (n * 9 + d - 1) * 10 + e) % TWO64;
    } else {
      r := (1 + (n - 1) * 10 + 9) % TWO64;
    }
  }

  /** `DecompressAmount`: the amount in 64-bit arithmetic, each product wrapping. */
  method DecompressAmount(code: nat) returns (n: nat)
    requires code < TWO64
    ensures n == Wrapped(Value(code))
  {
    hide Pow10, Value, Wrapped;
    if code == 0 {
      NoValue();
      return 0;
    }
    var x := code - 1;
    var e := x % 10;
    x := x / 10;
    if e < 9 {
      var d := x % 9 + 1;
      x := x / 9;
      n := x * 10 + d;
    } else {
      n := x + 1;
    }
    ghost var z, start, first := (code - 1) / 10, e, n;
    ValueAt(code, e, z);
    FactorFits(e, z);
    TenTimes(first, 0);
    while e > 0
      invariant 0 <= e <= start && n == Wrapped(first * Pow10(start - e))
    {
      WrapStep(first * Pow10(start - e));
      TenTimes(first, start - e + 1);
      n := Wrapped(n * 10);
      e := e - 1;
    }
  }

  lemma NoValue()
    ensures Value(0) == 0 && Wrapped(0) == 0
  {
  }

  /** What is left of a number in 64 bits. */
  function Wrapped(a: nat): (r: nat)
    ensures r < TWO64
  {
    a % TWO64
  }

  lemma FactorFits(e: nat, z: nat)
    requires z * 10 + e < TWO64
    ensures Wrapped(Factor(e, z)) == Factor(e, z)
  {
  }

  lemma WrapStep(a: nat)
    ensures Wrapped(Wrapped(a) * 10) == Wrapped(10 * a)
  {
    var q, r := a / TWO64, a % TWO64;
    var s, t := r * 10 / TWO64, r * 10 % TWO64;
    assert 10 * a == (10 * q + s) * TWO64 + t;
    DivMod(10 * q + s, t, TWO64);
  }

  /** Codes whose amount fits 64 bits survive decompression. */
  method CodeRoundTrip(code: nat) returns (r: nat)
    requires code < TWO64 && Value(code) < TWO64
    ensures r == code
  {
    hide Code, Value;
    var amount := DecompressAmount(code);
    CodeOfValue(code);
    r := CompressAmount(amount);
  }

  // ---------------------------------------------------------------- which amounts of money survive

  /** The smallest amount that does not survive. */
  const FIRST_LOST: nat := 2049638230412172403

  /** An amount of money survives compression if and only if its code fits 64 bits, that is unless it is at
      least `FIRST_LOST` and has no trailing zero. */
  lemma SurvivesExactly(n: nat)
    requires n <= MAX_MONEY
    ensures Wrapped(Value(Wrapped(Code(n)))) == n <==> Code(n) < TWO64
    ensures Code(n) < TWO64 <==> !(n % 10 != 0 && 9 * n + n % 10 - 9 >= TWO64)
    ensures Code(n) < TWO64 <==> !(n % 10 != 0 && n >= FIRST_LOST)
  {
    hide Code, Value, Wrapped, Pow10;
    CodeByDigit(n);
    ValueOfCode(n);
    if Code(n) < TWO64 {
      Fits(n);
      Fits(Code(n));
    } else {
      var k, d := n / 10, n % 10;
      var f := WrappedCode(n, k, d);
      IsLost(n, f, if d >= 3 then FIRST_LOST - 1 else FIRST_LOST);
    }
  }

  lemma Fits(a: nat)
    requires a < TWO64
    ensures Wrapped(a) == a
  {
  }

  /** Without a trailing zero the code is about nine times the amount; with one it is hardly larger than it. */
  lemma CodeByDigit(n: nat)
    ensures n % 10 != 0 ==> Code(n) == 9 * n + n % 10 - 9
    ensures n % 10 == 0 ==> Code(n) <= n + 9
  {
    if n % 10 != 0 {
      assert Strip(n, 0) == (n, 0);
    } else if n > 0 {
      StripFacts(n, 0);
      var (m, e) := Strip(n, 0);
      assert Strip(n, 0) == Strip(n / 10, 1);
      StripFacts(n / 10, 1);
      TenTimes(m, e);
      AtMostTenth(m, e, n);
    }
  }

  lemma AtMostTenth(m: nat, e: nat, n: nat)
    requires 0 < m && 1 <= e <= 9 && n == m * Pow10(e) && (e < 9 ==> m % 10 != 0)
    ensures CodeOf(m, e) <= n + 9
  {
    TenTimes(m, e);
    var p := Pow10(e - 1);
    MulMonotone(1, p, m);
    Commute(p, m);
    assert 10 * m <= n;
  }

  /** The code of an amount that does not fit, without what 64 bits cut off: its last digit stands for four
      zeros, and the factor is the amount less a constant. */
  lemma WrappedCode(n: nat, k: nat, d: nat) returns (f: nat)
    requires n == 10 * k + d && 0 < d < 10 && TWO64 <= 9 * n + d - 9 < 2 * TWO64
    ensures Value(Wrapped(9 * n + d - 9)) == f * 10000
    ensures f + (if d >= 3 then FIRST_LOST - 1 else FIRST_LOST) == n
  {
    hide Value, Pow10;
    var q := 204963823041217240;
    assert TWO64 == 10 * (9 * q + 1) + 6;
    var x := 9 * n + d - 9 - TWO64;
    assert Wrapped(9 * n + d - 9) == x;
    var z := 9 * (k - q) + d - 3;
    assert x == 1 + z * 10 + 4;
    ValueAt(x, 4, z);
    f := Factor(4, z);
    TenThousand();
    if d >= 3 {
      assert z / 9 == k - q && z % 9 == d - 3;
    } else {
      assert z / 9 == k - q - 1 && z % 9 == d + 6;
    }
  }

  lemma TenThousand()
    ensures Pow10(4) == 10000
  {
    assert Pow10(1) == 10 && Pow10(2) == 100;
  }

  /** No such factor decompresses to the amount again. */
  lemma IsLost(n: nat, f: nat, c: nat)
    requires f + c == n <= MAX_MONEY && (c == FIRST_LOST - 1 || c == FIRST_LOST)
    ensures Wrapped(f * 10000) != n
  {
    if Wrapped(f * 10000) == n {
      var j := f * 10000 / TWO64;
      assert f * 10000 == j * TWO64 + n;
      assert 9999 * f == j * TWO64 + c && j < 28;
      NoMultiple(f, j, c);
    }
  }

  lemma NoMultiple(f: nat, j: nat, c: nat)
    requires j < 28 && (c == FIRST_LOST - 1 || c == FIRST_LOST)
    ensures 9999 * f != j * TWO64 + c
  {
  }

  /** Every amount of which nine times fit 64 bits survives compression, and so do all amounts of money
      but those from `FIRST_LOST` on that have no trailing zero. */
  method RoundTrip(amount: nat) returns (r: nat)
    requires amount < TWO64
    ensures 9 * amount < TWO64 ==> r == amount
    ensures amount <= MAX_MONEY ==> (r == amount <==> amount % 10 == 0 || amount < FIRST_LOST)
  {
    hide Code, Value;
    var code := CompressAmount(amount);
    r := DecompressAmount(code);
    CodeBound(amount);
    ValueOfCode(amount);
    if amount <= MAX_MONEY {
      SurvivesExactly(amount);
    }
  }

  /** The largest amount of money but one does not fit: its code needs more than 64 bits, and what is left
      of it decompresses to another amount. */
  lemma MoneyDoesNotFit()
    ensures var n := 2099999999999999999;
            n == MAX_MONEY - 1 && Code(n) >= TWO64 && Wrapped(Value(Wrapped(Code(n)))) == 5555605888118076368
  {
    var n := 2099999999999999999;
    CodeAt(n, 0);
    assert Pow10(0) == 1;
    assert CodeOf(n, 0) == 18899999999999999991;
    assert Wrapped(18899999999999999991) == 453255926290448375;
    ValueAt(453255926290448375, 4, 45325592629044837);
    assert Pow10(4) == 10000;
    assert Factor(4, 45325592629044837) == 50361769587827597;
  }
}
