/** Small notions used by several modules. */
module Common {

  datatype Option<T> = None | Some(value: T)

  /** `isspace` in the C locale. */
  predicate IsSpace(ch: char) {
    ch == ' ' || ch == '\n' || ch == '\r' || ch == '\t' || ch == 11 as char || ch == 12 as char
  }

  // ---------------------------------------------------------------- sets and sequences

  ghost function Elems<T>(s: seq<T>): set<T> {
    set x | x in s
  }

  lemma ElemsAppend<T>(s: seq<T>, x: T)
    ensures Elems(s + [x]) == Elems(s) + {x}
  {
    forall y | y in Elems(s) + {x} ensures y in s + [x] {
      assert y != x ==> y in s;
      assert (s + [x])[|s|] == x;
    }
  }

  ghost predicate NoDuplicates<T>(s: seq<T>) {
    forall i, j | 0 <= i < j < |s| :: s[i] != s[j]
  }

  lemma {:induction false} SmallerSet<T>(a: set<T>, b: set<T>)
    requires a <= b
    ensures |a| <= |b|
    ensures a < b ==> |a| < |b|
    decreases b
  {
    if a == {} {
      assert b != {} ==> |b| > 0;
    } else {
      var x :| x in a;
      if a < b {
        var y :| y in b && y !in a;
        assert y in b - {x} && y !in a - {x};
      }
      SmallerSet(a - {x}, b - {x});
    }
  }

  ghost function Element<T>(s: set<T>): (x: T)
    requires s != {}
    ensures x in s
  {
    var x :| x in s;
    x
  }

  ghost function Least(s: set<nat>): (x: nat)
    requires s != {}
    ensures x in s && forall y | y in s :: x <= y
  {
    var x := Element(s);
    if s == {x} then x
    else
      var y := Least(s - {x});
      assert forall z | z in s :: z == x || z in s - {x};
      if x < y then x else y
  }

  /** A function takes at most `n` values on `n` arguments. */
  lemma {:induction false} ImageSize<T>(f: nat -> T, n: nat)
    ensures |set k: nat | k < n :: f(k)| <= n
  {
    if n > 0 {
      ImageSize(f, n - 1);
      assert (set k: nat | k < n :: f(k)) == (set k: nat | k < n - 1 :: f(k)) + {f(n - 1)};
    }
  }

  /** Two sets that differ at most in one element. */
  lemma WithOrWithout<T>(s: set<T>, t: set<T>, id: T)
    requires forall x | x != id :: x in t <==> x in s
    ensures |t| == |s| + (if id in t then 1 else 0) - (if id in s then 1 else 0)
  {
    var rest := s - {id};
    assert s == if id in s then rest + {id} else rest;
    assert t == if id in t then rest + {id} else rest;
  }

  // ---------------------------------------------------------------- arithmetic

  const TWO64: nat := 0x1_0000_0000_0000_0000

  function Pow2(k: nat): (r: nat)
    ensures r > 0
  {
    if k == 0 then 1 else 2 * Pow2(k - 1)
  }

  lemma Commute(a: nat, b: nat)
    ensures a * b == b * a
  {
  }

  lemma MulMonotone(a: nat, b: nat, d: nat)
    requires a <= b
    ensures a * d <= b * d
  {
  }

  /** Quotient and remainder are what they are named for. */
  lemma DivMod(q: nat, r: nat, d: nat)
    requires r < d
    ensures (q * d + r) / d == q && (q * d + r) % d == r
  {
    var x := q * d + r;
    var u, w := x / d, x % d;
    assert x == u * d + w;
    if u < q {
      MulMonotone(u + 1, q, d);
      assert false;
    } else if u > q {
      MulMonotone(q + 1, u, d);
      assert false;
    }
  }

  function Div(a: nat, d: nat): nat
    requires d > 0
  {
    a / d
  }

  function Mod(a: nat, d: nat): (r: nat)
    requires d > 0
    ensures r < d
  {
    a % d
  }

  lemma DivFacts(a: nat, d: nat)
    requires d > 0
    ensures a == Div(a, d) * d + Mod(a, d)
  {
  }
}
