/** Which texts the evaluator of verifier strings (src/LibBoolEE.cpp) accepts: among tidy texts, exactly the
    formulas. */
module BoolAccept {
  import opened Common
  import opened BoolParse
  import opened BoolFormula

  predicate IsOperator(c: char) {
    c == '&' || c == '|'
  }

  /** An operator where the evaluator overlooks that an operand is missing. */
  ghost predicate Overlooked(t: string, k: nat)
    requires k < |t|
  {
    IsOperator(t[k]) && (k == 0 || t[k - 1] == '(' || (t[k] == '&' && t[k - 1] == '|'))
  }

  /** Characters of formulas only, and no operator at the start, after an opening parenthesis, or, for `&`,
      after `|`. */
  ghost predicate Tidy(t: string) {
    FormulaChars(t) && forall k: nat | k < |t| :: !Overlooked(t, k)
  }

  ghost predicate IsName(n: string) {
    n != "" && forall i | 0 <= i < |n| :: BelongsToName(n[i])
  }

  ghost predicate NamesOnly(v: Valuation) {
    forall n | n in v :: IsName(n)
  }

  /** Every name in the formula is a constant or has a value. */
  ghost predicate Covered(e: Formula, v: Valuation) {
    match e
    case Name(n) => n == "0" || n == "1" || n in v
    case Not(a) => Covered(a, v)
    case And(a, b) => Covered(a, v) && Covered(b, v)
    case Or(a, b) => Covered(a, v) && Covered(b, v)
    case Paren(a) => Covered(a, v)
  }

  lemma {:induction false} CoveredHasValue(e: Formula, v: Valuation)
    ensures Eval(e, v).Value? <==> Covered(e, v)
    decreases e
  {
    match e
    case Name(n) =>
    case Not(a) => CoveredHasValue(a, v);
    case And(a, b) => CoveredHasValue(a, v); CoveredHasValue(b, v);
    case Or(a, b) => CoveredHasValue(a, v); CoveredHasValue(b, v);
    case Paren(a) => CoveredHasValue(a, v);
  }

  // ---------------------------------------------------------------- parentheses

  function Delta(c: char): int {
    if c == '(' then 1 else if c == ')' then -1 else 0
  }

  /** The opening parentheses less the closing ones. */
  ghost function Net(t: string): int {
    if t == "" then 0 else Net(t[..|t| - 1]) + Delta(t[|t| - 1])
  }

  lemma NetNext(t: string, k: nat)
    requires k < |t|
    ensures Net(t[..k + 1]) == Net(t[..k]) + Delta(t[k])
  {
    assert t[..k + 1][..k] == t[..k];
  }

  lemma {:induction false} NetConcat(a: string, b: string)
    ensures Net(a + b) == Net(a) + Net(b)
  {
    if b == "" {
      assert a + b == a;
    } else {
      var n := |b| - 1;
      NetConcat(a, b[..n]);
      assert (a + b)[..|a| + n] == a + b[..n];
    }
  }

  lemma NetOne(c: char)
    ensures Net([c]) == Delta(c)
  {
    assert [c][..0] == "";
  }

  /** The parentheses of a formula match. */
  lemma {:induction false} NetOfText(e: Formula)
    requires WellFormed(e)
    ensures Net(Text(e)) == 0
    decreases e
  {
    hide BelongsToName;
    match e
    case Name(n) => NetOfName(n);
    case Not(a) =>
      NetOfText(a);
      NetOne('!');
      NetConcat("!", Text(a));
    case And(a, b) =>
      NetOfText(a);
      NetOfText(b);
      NetOfTwo(Text(a), '&', Text(b));
    case Or(a, b) =>
      NetOfText(a);
      NetOfText(b);
      NetOfTwo(Text(a), '|', Text(b));
    case Paren(a) =>
      NetOfText(a);
      NetAround(Text(a), ')');
  }

  lemma NetOfTwo(a: string, c: char, b: string)
    ensures Net(a + [c] + b) == Net(a) + Delta(c) + Net(b)
  {
    NetOne(c);
    NetConcat(a, [c]);
    NetConcat(a + [c], b);
  }

  lemma {:induction false} NetOfName(n: string)
    requires forall i | 0 <= i < |n| :: BelongsToName(n[i])
    ensures Net(n) == 0
  {
    if n != "" {
      NetOfName(n[..|n| - 1]);
    }
  }

  // ---------------------------------------------------------------- the scanner on formula characters

  lemma RunStep(f: string, op: char, i: nat)
    requires i < |f|
    ensures Run(f, op, 0, i + 1, BEGIN) == StepAt(f, op, i, Run(f, op, 0, i, BEGIN))
  {
    hide StepAt;
    RunSplit(f, op, 0, i, i + 1, BEGIN);
    var s := Run(f, op, 0, i, BEGIN);
    assert Run(f, op, i + 1, i + 1, StepAt(f, op, i, s)) == StepAt(f, op, i, s);
  }

  /** No character of a formula is an unknown operator, and the scanner counts the parentheses. */
  lemma {:induction false} ScanCounts(f: string, op: char, i: nat)
    requires FormulaChars(f) && i <= |f|
    ensures !Run(f, op, 0, i, BEGIN).bad && Run(f, op, 0, i, BEGIN).parity == Net(f[..i])
  {
    hide BelongsToName, Run;
    if i == 0 {
      RunNothing(f, op, 0, BEGIN);
    } else {
      ScanCounts(f, op, i - 1);
      RunStep(f, op, i - 1);
      NetNext(f, i - 1);
      assert FormulaChar(f[i - 1]);
    }
  }

  /** Scanning a beginning of a text is scanning that beginning. */
  lemma {:induction false} RunPrefix(f: string, op: char, k: nat, i: nat)
    requires i <= k <= |f|
    ensures Run(f[..k], op, 0, i, BEGIN) == Run(f, op, 0, i, BEGIN)
  {
    hide BelongsToName, Run;
    if i == 0 {
      RunNothing(f, op, 0, BEGIN);
      RunNothing(f[..k], op, 0, BEGIN);
    } else {
      RunPrefix(f, op, k, i - 1);
      RunStep(f, op, i - 1);
      RunStep(f[..k], op, i - 1);
      var s := Run(f, op, 0, i - 1, BEGIN);
      assert s.start >= 0 ==> f[..k][s.start..i - 1] == f[s.start..i - 1];
    }
  }

  lemma SplitIs(f: string, op: char)
    requires FormulaChars(f)
    ensures var r := Run(f, op, 0, |f|, BEGIN);
            Split(f, op) == if Net(f) != 0 then Bad(ParenthesisParity)
                            else Pieces(if r.start != -1 then r.pieces + [f[r.start..]] else r.pieces)
  {
    hide BelongsToName, Run, Net;
    ScanCounts(f, op, |f|);
    assert f[..|f|] == f;
  }

  /** An operator at the top level. */
  ghost predicate IsCut(f: string, op: char, k: int) {
    0 <= k < |f| && f[k] == op && Net(f[..k]) == 0
  }

  /** In a text that starts as a formula does, the pieces are cut at the top-level operators. */
  lemma {:induction false} Cuts(f: string, op: char, i: nat)
    requires FormulaChars(f) && IsOperator(op) && 1 <= i <= |f| && Starter(f[0])
    ensures var r := Run(f, op, 0, i, BEGIN);
            && 0 <= r.start <= i && (forall k | r.start <= k < i :: !IsCut(f, op, k))
            && (r.pieces == [] ==> r.start == 0)
            && (r.pieces != [] ==>
                  var c := r.start - 1;
                  && 1 <= c && IsCut(f, op, c)
                  && var q := Run(f, op, 0, c, BEGIN); q.start >= 0 && r.pieces == q.pieces + [f[q.start..c]])
  {
    hide BelongsToName, Run, Net;
    NotAName();
    if i == 1 {
      RunNothing(f, op, 0, BEGIN);
      RunStep(f, op, 0);
    } else {
      Cuts(f, op, i - 1);
      ScanCounts(f, op, i - 1);
      RunStep(f, op, i - 1);
      assert FormulaChar(f[i - 1]);
    }
  }

  /** One piece means no operator at the top level. */
  lemma OnePiece(f: string, op: char)
    requires FormulaChars(f) && IsOperator(op) && f != "" && Starter(f[0]) && Net(f) == 0
    ensures Split(f, op).Pieces? && |Split(f, op).pieces| >= 1
    ensures |Split(f, op).pieces| == 1 <==> forall k | 0 <= k < |f| :: !IsCut(f, op, k)
  {
    hide BelongsToName, Run, Net, Split;
    Cuts(f, op, |f|);
    SplitIs(f, op);
  }

  /** The last piece, and the text before it. */
  lemma LastPiece(f: string, op: char) returns (c: nat, before: seq<string>)
    requires FormulaChars(f) && IsOperator(op) && f != "" && Starter(f[0]) && Net(f) == 0
    requires Split(f, op).Pieces? && |Split(f, op).pieces| > 1
    ensures 1 <= c && IsCut(f, op, c) && forall k | c < k < |f| :: !IsCut(f, op, k)
    ensures Split(f, op) == Pieces(before + [f[c + 1..]]) && Split(f[..c], op) == Pieces(before)
    ensures |before| == 1 ==> before == [f[..c]]
  {
    hide BelongsToName, Run, Net, Split;
    var r := Run(f, op, 0, |f|, BEGIN);
    Cuts(f, op, |f|);
    SplitIs(f, op);
    c, before := r.start - 1, r.pieces;
    Cuts(f, op, c);
    RunPrefix(f, op, c, c);
    SplitIs(f[..c], op);
    var q := Run(f, op, 0, c, BEGIN);
    assert f[..c][q.start..] == f[q.start..c];
  }

  // ---------------------------------------------------------------- resolving

  lemma CharsAreSqueezed(t: string)
    requires FormulaChars(t)
    ensures Squeeze(t) == t
  {
    SqueezeShortens(t);
    FormulaCharIsNoSpace();
  }

  lemma AllButLast(pieces: seq<string>, x: string, conj: bool, v: Valuation, bound: nat)
    requires (forall k | 0 <= k < |pieces| :: |pieces[k]| < bound) && |x| < bound
    ensures ResolveAll(pieces + [x], conj, v, bound) == Combine(ResolveAll(pieces, conj, v, bound), Resolve(x, v), conj)
  {
    hide Resolve;
    assert (pieces + [x])[..|pieces|] == pieces;
  }

  /** When a text is cut, its last piece and the text before it resolve. */
  lemma BothResolve(t: string, op: char, c: nat, before: seq<string>, v: Valuation)
    requires FormulaChars(t) && IsOperator(op) && c < |t| && before != []
    requires Split(t, op) == Pieces(before + [t[c + 1..]]) && Split(t[..c], op) == Pieces(before)
    requires |before| == 1 ==> before == [t[..c]]
    requires op == '&' ==> (Split(t, '|').Pieces? && |Split(t, '|').pieces| == 1)
    requires op == '&' ==> (Split(t[..c], '|').Pieces? && |Split(t[..c], '|').pieces| == 1)
    requires ResolveRec(t, v).Value?
    ensures ResolveRec(t[..c], v).Value? && ResolveRec(t[c + 1..], v).Value?
  {
    hide BelongsToName, Split, ResolveAll, ResolveRec;
    var last := t[c + 1..];
    var all := before + [last];
    ResolveCut(t, op, all, v);
    assert forall k | 0 <= k < |before| :: all[k] == before[k];
    AllButLast(before, last, op == '&', v, |t|);
    CharsAreSqueezed(last);
    if |before| == 1 {
      CharsAreSqueezed(t[..c]);
      AllButLast([], t[..c], op == '&', v, |t|);
      assert [] + [t[..c]] == before;
    } else {
      ResolveCut(t[..c], op, before, v);
      BoundIsNoMatter(before, op == '&', v, |t|, c);
    }
  }

  lemma ResolveCut(t: string, op: char, pieces: seq<string>, v: Valuation)
    requires IsOperator(op) && Split(t, op) == Pieces(pieces) && |pieces| > 1
    requires op == '&' ==> (Split(t, '|').Pieces? && |Split(t, '|').pieces| == 1)
    ensures forall k | 0 <= k < |pieces| :: |pieces[k]| < |t|
    ensures ResolveRec(t, v) == ResolveAll(pieces, op == '&', v, |t|)
  {
    hide Split, ResolveAll;
    PiecesAreShorter(t, op);
  }

  lemma {:induction false} OneError(pieces: seq<string>, conj: bool, v: Valuation, bound: nat)
    requires pieces != [] && (forall k | 0 <= k < |pieces| :: |pieces[k]| < bound) && Resolve(pieces[0], v).Error?
    ensures ResolveAll(pieces, conj, v, bound).Error?
  {
    hide Resolve;
    if |pieces| == 1 {
      assert pieces[..0] == [];
    } else {
      OneError(pieces[..|pieces| - 1], conj, v, bound);
    }
  }

  /** A first piece that opens more parentheses than it closes. */
  ghost predicate Opens(p: string) {
    p != "" && p[0] == '(' && FormulaChars(p) && Net(p) > 0
  }

  lemma OpensFails(p: string, v: Valuation)
    requires Opens(p)
    ensures Resolve(p, v).Error?
  {
    hide BelongsToName, Net, Split;
    CharsAreSqueezed(p);
    SplitIs(p, '|');
  }

  /** When the first character is a closing parenthesis, the first piece opens too many. */
  lemma {:induction false} ClosedFirst(f: string, op: char, i: nat)
    requires FormulaChars(f) && IsOperator(op) && 1 <= i <= |f| && f[0] == ')'
    ensures var r := Run(f, op, 0, i, BEGIN);
            && (r.start == -1 ==> r.pieces == [] && Net(f[..i]) < 0)
            && (r.start != -1 && r.pieces == [] ==> r.start < i && f[r.start] == '(' && Net(f[..r.start]) < 0)
            && (r.pieces != [] ==> Opens(r.pieces[0]))
  {
    hide BelongsToName, Run, Net;
    NotAName();
    if i == 1 {
      RunNothing(f, op, 0, BEGIN);
      RunStep(f, op, 0);
      NetOne(')');
      assert f[..1] == [')'];
    } else {
      var r := Run(f, op, 0, i - 1, BEGIN);
      ClosedFirst(f, op, i - 1);
      ScanCounts(f, op, i - 1);
      RunStep(f, op, i - 1);
      NetNext(f, i - 1);
      if r.start != -1 && r.pieces == [] {
        assert f[..i - 1] == f[..r.start] + f[r.start..i - 1];
        NetConcat(f[..r.start], f[r.start..i - 1]);
      }
    }
  }

  lemma ClosedFails(t: string, v: Valuation)
    requires FormulaChars(t) && t != "" && t[0] == ')' && NamesOnly(v)
    ensures ResolveRec(t, v).Error?
  {
    hide BelongsToName, Run, Net, Split, ResolveAll, Resolve;
    NotAName();
    PiecesOfClosed(t, '|', v);
    PiecesOfClosed(t, '&', v);
  }

  lemma PiecesOfClosed(t: string, op: char, v: Valuation)
    requires FormulaChars(t) && t != "" && t[0] == ')' && IsOperator(op)
    ensures Split(t, op).Pieces? && |Split(t, op).pieces| > 1 ==>
              (forall k | 0 <= k < |Split(t, op).pieces| :: |Split(t, op).pieces[k]| < |t|) &&
              ResolveAll(Split(t, op).pieces, op == '&', v, |t|).Error?
  {
    hide BelongsToName, Run, Net, Split, ResolveAll, Resolve, Opens;
    PiecesAreShorter(t, op);
    SplitIs(t, op);
    ClosedFirst(t, op, |t|);
    if Split(t, op).Pieces? && |Split(t, op).pieces| > 1 {
      var pieces := Split(t, op).pieces;
      OpensFails(pieces[0], v);
      OneError(pieces, op == '&', v, |t|);
    }
  }

  // ---------------------------------------------------------------- tidy texts

  lemma TidyBefore(t: string, c: nat)
    requires Tidy(t) && c <= |t|
    ensures Tidy(t[..c])
  {
    hide FormulaChar;
    forall k: nat | k < c ensures !Overlooked(t[..c], k) {
      assert !Overlooked(t, k);
    }
  }

  lemma TidyAfter(t: string, c: nat)
    requires Tidy(t) && c <= |t| && (c < |t| ==> !IsOperator(t[c]))
    ensures Tidy(t[c..])
  {
    hide FormulaChar;
    forall k: nat | k < |t| - c ensures !Overlooked(t[c..], k) {
      assert !Overlooked(t, c + k);
    }
  }

  /** After the last cut no operator follows directly. */
  lemma NotDoubled(t: string, op: char, c: nat)
    requires Tidy(t) && IsOperator(op) && IsCut(t, op, c) && (forall k | c < k < |t| :: !IsCut(t, op, k))
    requires op == '&' ==> forall k | 0 <= k < |t| :: !IsCut(t, '|', k)
    ensures c + 1 < |t| ==> !IsOperator(t[c + 1])
  {
    if c + 1 < |t| {
      NetNext(t, c);
      assert !Overlooked(t, c + 1);
      assert !IsCut(t, op, c + 1);
      assert op == '&' ==> !IsCut(t, '|', c + 1);
    }
  }

  /** Operators at the top level of a part are at the top level of the whole. */
  lemma CutsOfParts(t: string, op: char, c: nat)
    requires c <= |t| && forall k | 0 <= k < |t| :: !IsCut(t, op, k)
    ensures forall k | 0 <= k < c :: !IsCut(t[..c], op, k)
    ensures Net(t[..c]) == 0 ==> forall k | 0 <= k < |t| - c :: !IsCut(t[c..], op, k)
  {
    hide Net;
    forall k | 0 <= k < c ensures !IsCut(t[..c], op, k) {
      assert t[..c][..k] == t[..k];
      assert !IsCut(t, op, k);
    }
    if Net(t[..c]) == 0 {
      forall k | 0 <= k < |t| - c ensures !IsCut(t[c..], op, k) {
        assert t[..c + k] == t[..c] + t[c..][..k];
        NetConcat(t[..c], t[c..][..k]);
        assert !IsCut(t, op, c + k);
      }
    }
  }

  /** Without an operator at the top level of its text a formula is no chain of it. */
  lemma NoChain(e: Formula, op: char)
    requires WellFormed(e) && IsOperator(op) && (op == '&' ==> !e.Or?)
    requires forall k | 0 <= k < |Text(e)| :: !IsCut(Text(e), op, k)
    ensures op == '|' ==> !e.Or?
    ensures op == '&' ==> !e.And?
  {
    hide BelongsToName, Split, Operands, WellFormed, Text;
    TextChars(e);
    NetOfText(e);
    OnePiece(Text(e), op);
    SplitText(e, op);
    OperandsAreFormulas(e, op);
  }

  lemma StartsRight(t: string, v: Valuation)
    requires Tidy(t) && NamesOnly(v) && ResolveRec(t, v).Value?
    ensures t != "" && Starter(t[0]) && Net(t) == 0
  {
    hide BelongsToName, Net, Split, ResolveAll, Resolve;
    SplitIs(t, '|');
    assert !Overlooked(t, 0);
    assert FormulaChar(t[0]);
    if t[0] == ')' {
      ClosedFails(t, v);
      assert false;
    }
  }

  // ---------------------------------------------------------------- the theorem

  /** A tidy text that resolves is the text of a formula. */
  lemma {:induction false} FormulaOf(t: string, v: Valuation) returns (e: Formula)
    requires Tidy(t) && NamesOnly(v) && ResolveRec(t, v).Value?
    ensures WellFormed(e) && Text(e) == t
    decreases |t|, 2
  {
    hide BelongsToName, Net, Split, ResolveAll, ResolveRec, Tidy, Starter, FormulaChars, IsCut;
    StartsRight(t, v);
    TidyChars(t);
    OnePiece(t, '|');
    if |Split(t, '|').pieces| > 1 {
      var c, before := LastPiece(t, '|');
      CutIsInside(t, '|', c);
      BothResolve(t, '|', c, before, v);
      NotDoubled(t, '|', c);
      TidyBefore(t, c);
      TidyAfter(t, c + 1);
      var l := FormulaOf(t[..c], v);
      var r := FormulaOf(t[c + 1..], v);
      e := Or(l, r);
    } else {
      OnePiece(t, '&');
      if |Split(t, '&').pieces| > 1 {
        e := ConjunctionOf(t, v);
      } else {
        e := OperandOf(t, v);
      }
    }
  }

  lemma TidyChars(t: string)
    requires Tidy(t)
    ensures FormulaChars(t)
  {
  }

  lemma CutIsInside(t: string, op: char, c: nat)
    requires IsCut(t, op, c) && FormulaChars(t)
    ensures c < |t| && t[c] == op && Net(t[..c]) == 0 && FormulaChars(t[..c])
  {
  }

  lemma ConjunctionOf(t: string, v: Valuation) returns (e: Formula)
    requires Tidy(t) && NamesOnly(v) && ResolveRec(t, v).Value? && t != "" && Starter(t[0]) && Net(t) == 0
    requires Split(t, '|').Pieces? && |Split(t, '|').pieces| == 1
    requires Split(t, '&').Pieces? && |Split(t, '&').pieces| > 1
    ensures WellFormed(e) && Text(e) == t
    decreases |t|, 1
  {
    hide BelongsToName, Net, Split, ResolveAll, ResolveRec, Tidy, Starter, FormulaChars, IsCut;
    TidyChars(t);
    OnePiece(t, '|');
    var c, before := LastPiece(t, '&');
    CutIsInside(t, '&', c);
    CutsOfParts(t, '|', c);
    OnePiece(t[..c], '|');
    BothResolve(t, '&', c, before, v);
    NotDoubled(t, '&', c);
    TidyBefore(t, c);
    TidyAfter(t, c + 1);
    var l := FormulaOf(t[..c], v);
    var r := FormulaOf(t[c + 1..], v);
    NoChain(l, '|');
    NetNext(t, c);
    CutsOfParts(t, '|', c + 1);
    NoChain(r, '|');
    e := And(l, r);
  }

  lemma OperandOf(t: string, v: Valuation) returns (e: Formula)
    requires Tidy(t) && NamesOnly(v) && ResolveRec(t, v).Value? && t != "" && Starter(t[0]) && Net(t) == 0
    requires Split(t, '|').Pieces? && |Split(t, '|').pieces| == 1
    requires Split(t, '&').Pieces? && |Split(t, '&').pieces| == 1
    ensures WellFormed(e) && Text(e) == t
    decreases |t|, 1
  {
    hide BelongsToName, Net, Split, ResolveAll, Starter, IsCut;
    OnePiece(t, '|');
    OnePiece(t, '&');
    if t[0] == '!' {
      var a := NegatedOf(t, v);
      e := Not(a);
    } else if t[0] == '(' {
      PiecesAreShorter(t, '|');
      var a := InnerOf(t, v);
      e := Paren(a);
    } else {
      e := Name(t);
      ConstantsAreNames();
    }
  }

  lemma ConstantsAreNames()
    ensures IsName("0") && IsName("1")
  {
  }

  lemma NegatedOf(t: string, v: Valuation) returns (a: Formula)
    requires Tidy(t) && NamesOnly(v) && t != "" && t[0] == '!' && Resolve(t[1..], v).Value?
    requires forall k | 0 <= k < |t| :: !IsCut(t, '|', k) && !IsCut(t, '&', k)
    ensures WellFormed(a) && !a.And? && !a.Or? && t == "!" + Text(a)
    decreases |t|, 0
  {
    hide BelongsToName, Net, ResolveRec, FormulaChar;
    NetOne('!');
    assert t[..1] == "!";
    if |t| > 1 {
      assert !IsCut(t, '|', 1) && !IsCut(t, '&', 1);
    }
    TidyAfter(t, 1);
    CharsAreSqueezed(t[1..]);
    a := FormulaOf(t[1..], v);
    CutsOfParts(t, '|', 1);
    CutsOfParts(t, '&', 1);
    NoChain(a, '|');
    NoChain(a, '&');
    assert t == "!" + t[1..];
  }

  lemma InnerOf(t: string, v: Valuation) returns (a: Formula)
    requires Tidy(t) && NamesOnly(v) && |t| >= 2 && t[0] == '(' && Net(t) == 0 && Resolve(t[1..|t| - 1], v).Value?
    ensures WellFormed(a) && t == "(" + Text(a) + ")"
    decreases |t|, 0
  {
    hide BelongsToName, Net, ResolveRec, FormulaChar;
    var n := |t| - 1;
    TidyBefore(t, n);
    assert n > 1 ==> !Overlooked(t, 1);
    TidyAfter(t[..n], 1);
    var inner := t[1..n];
    assert t[..n][1..] == inner;
    CharsAreSqueezed(inner);
    a := FormulaOf(inner, v);
    NetOfText(a);
    hide Text, Tidy;
    assert t == "(" + inner + [t[n]];
    NetAround(inner, t[n]);
  }

  lemma NetAround(inner: string, c: char)
    ensures Net("(" + inner + [c]) == 1 + Net(inner) + Delta(c)
  {
    NetOne('(');
    NetOne(c);
    NetConcat("(", inner);
    NetConcat("(" + inner, [c]);
  }

  lemma {:induction false} TextIsTidy(e: Formula)
    requires WellFormed(e)
    ensures Tidy(Text(e))
    decreases e
  {
    hide BelongsToName;
    NotAName();
    TextChars(e);
    match e
    case Name(n) => assert forall k: nat | k < |n| :: BelongsToName(n[k]);
    case Not(a) =>
      TextIsTidy(a);
      TidyJoin("!", Text(a));
    case And(a, b) =>
      TextIsTidy(a);
      TextIsTidy(b);
      TidyTwo(a, '&', b);
    case Or(a, b) =>
      TextIsTidy(a);
      TextIsTidy(b);
      TidyTwo(a, '|', b);
    case Paren(a) =>
      TextIsTidy(a);
      TextChars(a);
      TidyJoin("(", Text(a));
      TidyJoin("(" + Text(a), ")");
  }

  lemma TidyJoin(a: string, b: string)
    requires Tidy(a) && Tidy(b)
    ensures Tidy(a + b)
  {
    hide FormulaChar;
    forall k: nat | k < |a + b| ensures !Overlooked(a + b, k) {
      if k < |a| {
        assert !Overlooked(a, k);
      } else {
        assert !Overlooked(b, k - |a|);
        assert k == |a| ==> !IsOperator(b[0]);
      }
    }
  }

  lemma TidyTwo(a: Formula, op: char, b: Formula)
    requires WellFormed(a) && WellFormed(b) && Tidy(Text(a)) && Tidy(Text(b)) && IsOperator(op)
    ensures Tidy(Text(a) + [op] + Text(b))
  {
    hide BelongsToName;
    NotAName();
    EndsRight(a);
    var t := Text(a) + [op];
    forall k: nat | k < |t| ensures !Overlooked(t, k) {
      assert k < |Text(a)| ==> !Overlooked(Text(a), k);
    }
    TidyJoin(t, Text(b));
  }

  /** The last character of a formula closes a parenthesis or belongs to a name. */
  lemma {:induction false} EndsRight(e: Formula)
    requires WellFormed(e)
    ensures Text(e) != "" && var c := Text(e)[|Text(e)| - 1]; BelongsToName(c) || c == ')'
    decreases e
  {
    hide BelongsToName;
    match e
    case Name(n) =>
    case Not(a) => EndsRight(a);
    case And(a, b) => EndsRight(b);
    case Or(a, b) => EndsRight(b);
    case Paren(a) =>
  }

  /** With values for names only, the tidy texts that the evaluator gives a value to are exactly the texts
      of the formulas all of whose names have values, and the value is that of the formula. */
  lemma AcceptsExactly(source: string, v: Valuation)
    requires NamesOnly(v)
    ensures Tidy(Squeeze(source)) && Resolve(source, v).Value? <==>
            exists e :: WellFormed(e) && Covered(e, v) && Text(e) == Squeeze(source)
    ensures forall e | WellFormed(e) && Text(e) == Squeeze(source) :: Resolve(source, v) == Eval(e, v)
  {
    hide BelongsToName, ResolveRec, WellFormed, Text;
    forall e | WellFormed(e) && Text(e) == Squeeze(source)
      ensures Resolve(source, v) == Eval(e, v) && Tidy(Squeeze(source)) && (Eval(e, v).Value? <==> Covered(e, v))
    {
      ResolveIsEval(e, source, v);
      TextIsTidy(e);
      CoveredHasValue(e, v);
    }
    if Tidy(Squeeze(source)) && Resolve(source, v).Value? {
      var e := FormulaOf(Squeeze(source), v);
      assert WellFormed(e) && Covered(e, v) && Text(e) == Squeeze(source);
    }
  }

  // ---------------------------------------------------------------- why each condition is there

  /** Inside parentheses the scanner takes no notice of a missing operand. */
  lemma ParenthesisedLeading(f: string, op: char, c: char, e: Formula)
    requires IsOperator(c) && WellFormed(e) && f == "(" + ([c] + Text(e)) + ")"
    ensures Split(f, op) == Pieces([f])
  {
    hide BelongsToName, Run, Text, At;
    var t := [c] + Text(e);
    var inner := Started(BEGIN, 0).(parity := 1);
    AtSelf(f);
    AtParts(f, 0, "(" + t, ")");
    AtParts(f, 0, "(", t);
    AtParts(f, 1, [c], Text(e));
    AtFits(f, 0, "(" + t);
    Then(f, op, 1, c, 1 + |t|, inner);
    Inside(f, op, 2, e, inner);
    Parenthesised(f, op, 0, t, BEGIN);
    assert f[0..] == f && [] + [f] == [f];
  }

  lemma AtSelf(f: string)
    ensures At(f, 0, f)
  {
  }

  /** An operator after an opening parenthesis makes no formula, and is ignored. */
  lemma OperatorAfterParenthesis(c: char, e: Formula, v: Valuation)
    requires IsOperator(c) && WellFormed(e) && (e.And? || e.Or?) && [c] + Text(e) !in v
    ensures var t := "(" + ([c] + Text(e)) + ")";
            && Resolve(t, v) == Eval(e, v)
            && forall other | WellFormed(other) :: Text(other) != t
  {
    hide BelongsToName, Text, Split, WellFormed;
    NotAName();
    var inner := [c] + Text(e);
    var t := "(" + inner + ")";
    forall other | WellFormed(other) ensures Text(other) != t {
      TextIsTidy(other);
      assert Overlooked(t, 1);
    }
    TextChars(e);
    assert FormulaChars(inner) && FormulaChars(t);
    CharsAreSqueezed(t);
    ParenthesisedLeading(t, '|', c, e);
    ParenthesisedLeading(t, '&', c, e);
    assert t[1..|t| - 1] == inner;
    LeadingCharacter(c, e, v);
  }

  /** The pieces of a disjunction whose last operand has an `&` in front. */
  lemma SplitConjunctionAfter(f: string, a: Formula, b: Formula)
    requires WellFormed(a) && WellFormed(b) && b.And? && f == Text(a) + "|" + ("&" + Text(b))
    ensures Split(f, '|') == Pieces(Texts(Operands(a, '|')) + ["&" + Text(b)])
  {
    hide BelongsToName, Run, Text, At, Scanned, Operands, Texts;
    NotAName();
    var n, j := |Text(a)|, |f|;
    AtSelf(f);
    AtParts(f, 0, Text(a) + "|", "&" + Text(b));
    AtParts(f, 0, Text(a), "|");
    AtParts(f, n + 1, "&", Text(b));
    AtFits(f, 0, Text(a) + "|");
    Chain(f, '|', 0, a, BEGIN);
    RunSplit(f, '|', 0, n, j, BEGIN);
    CutHere(f, '|', 0, a, BEGIN);
    Then(f, '|', n, '|', j, Run(f, '|', 0, n, BEGIN));
    var s := AfterCut('|', 0, a, BEGIN);
    Then(f, '|', n + 1, '&', j, s);
    Whole(f, '|', n + 2, b, s);
    assert f[n + 1..] == "&" + Text(b);
    assert [] + Texts(Operands(a, '|')) == Texts(Operands(a, '|'));
  }

  /** An `&` after `|` makes no formula, and is ignored in front of a conjunction. */
  lemma ConjunctionAfterDisjunction(a: Formula, b: Formula, v: Valuation)
    requires WellFormed(a) && WellFormed(b) && b.And? && "&" + Text(b) !in v
    ensures var t := Text(a) + "|" + ("&" + Text(b));
            && Resolve(t, v) == Eval(Or(a, b), v)
            && forall other | WellFormed(other) :: Text(other) != t
  {
    hide BelongsToName, Text, Split, WellFormed, Resolve, ResolveAll, Operands, Texts;
    NotAName();
    var x, t := "&" + Text(b), Text(a) + "|" + ("&" + Text(b));
    TextChars(a);
    TextChars(b);
    forall other | WellFormed(other) ensures Text(other) != t {
      TextIsTidy(other);
      assert Overlooked(t, |Text(a)| + 1);
    }
    SplitConjunctionAfter(t, a, b);
    var os := Operands(a, '|');
    OperandsAreFormulas(a, '|');
    ResolveOperands(os, false, v, |t|, |os|);
    assert os[..|os|] == os;
    EvalChain(a, '|', v);
    PiecesWithin(os, |t|);
    AllButLast(Texts(os), x, false, v, |t|);
    LeadingCharacter('&', b, v);
    ResolveCut(t, '|', Texts(os) + [x], v);
    assert FormulaChars(t);
    ResolveTidy(t, v);
    EvalOr(a, b, v);
  }

  lemma ResolveTidy(t: string, v: Valuation)
    requires FormulaChars(t)
    ensures Resolve(t, v) == ResolveRec(t, v)
  {
    CharsAreSqueezed(t);
  }

  lemma EvalOr(a: Formula, b: Formula, v: Valuation)
    ensures Eval(Or(a, b), v) == Combine(Eval(a, v), Eval(b, v), false)
  {
  }

  lemma PiecesWithin(os: seq<Formula>, bound: nat)
    requires forall k | 0 <= k < |os| :: |Text(os[k])| < bound
    ensures |Texts(os)| == |os| && forall k | 0 <= k < |os| :: |Texts(os)[k]| < bound
  {
  }

  ghost predicate NameLike(t: string) {
    t != "" && BelongsToName(t[0]) && forall i | 0 <= i < |t| :: BelongsToName(t[i]) || t[i] == '!'
  }

  lemma {:induction false} NetOfNameLike(t: string)
    requires forall i | 0 <= i < |t| :: BelongsToName(t[i]) || t[i] == '!'
    ensures Net(t) == 0
  {
    if t != "" {
      NetOfNameLike(t[..|t| - 1]);
    }
  }

  /** A key that is no name, because of a `!` in it, is looked up although no formula has that text. */
  lemma KeyWithBang(t: string, v: Valuation)
    requires NameLike(t) && '!' in t && t in v
    ensures Tidy(t) && Resolve(t, v) == Value(v[t])
    ensures forall e | WellFormed(e) :: Text(e) != t
  {
    hide Net, Split, ResolveAll;
    forall e | WellFormed(e) ensures Text(e) != t {
      if Text(e) == t {
        NameLikeIsName(e);
      }
    }
    NetOfNameLike(t);
    CharsAreSqueezed(t);
    OnePiece(t, '|');
    OnePiece(t, '&');
    hide BelongsToName;
    NotAName();
  }

  lemma NameLikeIsName(e: Formula)
    requires WellFormed(e) && NameLike(Text(e))
    ensures '!' !in Text(e)
  {
    hide BelongsToName;
    NotAName();
    if e.And? || e.Or? {
      HasOperator(e);
    }
  }

  lemma HasOperator(e: Formula)
    requires e.And? || e.Or?
    ensures exists k :: 0 <= k < |Text(e)| && IsOperator(Text(e)[k])
  {
    assert IsOperator(Text(e)[|Text(e.left)|]);
  }
}
