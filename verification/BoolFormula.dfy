/** Propositional formulas and the texts that stand for them: resolving a text gives the truth value of
    its formula. */
module BoolFormula {
  import opened Common
  import opened BoolParse

  /** A formula with the parentheses written in it. */
  datatype Formula =
    | Name(name: string)
    | Not(arg: Formula)
    | And(left: Formula, right: Formula)
    | Or(left: Formula, right: Formula)
    | Paren(inner: Formula)

  /** Names are made of name characters, and operands of tighter operators are in parentheses: `!` binds
      more tightly than `&`, and `&` more than `|`. */
  predicate WellFormed(e: Formula) {
    match e
    case Name(n) => n != "" && forall i | 0 <= i < |n| :: BelongsToName(n[i])
    case Not(a) => WellFormed(a) && !a.And? && !a.Or?
    case And(a, b) => WellFormed(a) && WellFormed(b) && !a.Or? && !b.Or?
    case Or(a, b) => WellFormed(a) && WellFormed(b)
    case Paren(a) => WellFormed(a)
  }

  function Text(e: Formula): string {
    match e
    case Name(n) => n
    case Not(a) => "!" + Text(a)
    case And(a, b) => Text(a) + "&" + Text(b)
    case Or(a, b) => Text(a) + "|" + Text(b)
    case Paren(a) => "(" + Text(a) + ")"
  }

  /** The truth value, or nothing when a variable has no value. */
  function Eval(e: Formula, v: Valuation): Outcome {
    match e
    case Name(n) => if n == "1" then Value(true) else if n == "0" then Value(false) else if n in v then Value(v[n]) else Error(VariableNotFound)
    case Not(a) => Negate(Eval(a, v))
    case And(a, b) =>
      var x, y := Eval(a, v), Eval(b, v);
      if x.Error? then x else if y.Error? then y else Value(x.value && y.value)
    case Or(a, b) =>
      var x, y := Eval(a, v), Eval(b, v);
      if x.Error? then x else if y.Error? then y else Value(x.value || y.value)
    case Paren(a) => Eval(a, v)
  }

  /** The operands of a chain of `|` (or of `&`). */
  ghost function Operands(e: Formula, op: char): (r: seq<Formula>)
    ensures |r| > 0
  {
    if op == '|' && e.Or? then Operands(e.left, op) + Operands(e.right, op)
    else if op == '&' && e.And? then Operands(e.left, op) + Operands(e.right, op)
    else [e]
  }

  ghost function Texts(es: seq<Formula>): seq<string> {
    seq(|es|, i requires 0 <= i < |es| => Text(es[i]))
  }

  // ---------------------------------------------------------------- characters of a text

  predicate FormulaChar(c: char) {
    BelongsToName(c) || c == '!' || c == '&' || c == '|' || c == '(' || c == ')'
  }

  /** A character that can start a formula. */
  predicate Starter(c: char) {
    BelongsToName(c) || c == '!' || c == '('
  }

  ghost predicate FormulaChars(t: string) {
    forall i | 0 <= i < |t| :: FormulaChar(t[i])
  }

  lemma {:induction false} TextChars(e: Formula)
    requires WellFormed(e)
    ensures Text(e) != "" && FormulaChars(Text(e)) && Starter(Text(e)[0])
    decreases e
  {
    match e
    case Name(n) =>
    case Not(a) => TextChars(a);
    case And(a, b) => TextChars(a); TextChars(b);
    case Or(a, b) => TextChars(a); TextChars(b);
    case Paren(a) => TextChars(a);
  }

  lemma TextIsSqueezed(e: Formula)
    requires WellFormed(e)
    ensures Squeeze(Text(e)) == Text(e)
  {
    TextChars(e);
    SqueezeShortens(Text(e));
  }

  /** `t` stands at position `i` of `f`. */
  ghost predicate At(f: string, i: nat, t: string) {
    i + |t| <= |f| && f[i..i + |t|] == t
  }

  lemma AtParts(f: string, i: nat, a: string, b: string)
    requires At(f, i, a + b)
    ensures At(f, i, a) && At(f, i + |a|, b)
  {
    var t := a + b;
    assert f[i..i + |t|] == t;
    assert f[i..i + |a|] == t[..|a|] && f[i + |a|..i + |a| + |b|] == t[|a|..];
  }

  // ---------------------------------------------------------------- scanning a text

  /** One character and then the rest. */
  lemma Then(f: string, op: char, i: nat, c: char, j: nat, s: Scan)
    requires At(f, i, [c]) && i < j <= |f| && -1 <= s.start <= i
    ensures f[i] == c && -1 <= StepAt(f, op, i, s).start <= i + 1
    ensures Run(f, op, i, j, s) == Run(f, op, i + 1, j, StepAt(f, op, i, s))
  {
    hide BelongsToName;
    assert f[i] == f[i..i + 1][0];
  }

  /** A parenthesised text opens and closes one level. */
  lemma Parenthesised(f: string, op: char, i: nat, t: string, s: Scan)
    requires At(f, i, "(" + t + ")") && -1 <= s.start <= i && s.parity >= 0 && !s.bad
    requires var inner := Started(s, i).(parity := s.parity + 1); Run(f, op, i + 1, i + 1 + |t|, inner) == inner
    ensures Run(f, op, i, i + |t| + 2, s) == Started(s, i)
  {
    hide Run;
    var inner, k := Started(s, i).(parity := s.parity + 1), i + 1 + |t|;
    AtParts(f, i, "(" + t, ")");
    AtParts(f, i, "(", t);
    Then(f, op, i, '(', k + 1, s);
    RunSplit(f, op, i + 1, k, k + 1, inner);
    Then(f, op, k, ')', k + 1, inner);
    RunNothing(f, op, k + 1, Started(s, i));
  }

  lemma RunNothing(f: string, op: char, i: nat, s: Scan)
    requires i <= |f| && -1 <= s.start <= i
    ensures Run(f, op, i, i, s) == s
  {
  }

  /** Where the current piece starts after a text at `i` was scanned. */
  function Started(s: Scan, i: nat): Scan {
    if s.start == -1 then s.(start := i) else s
  }

  /** Inside parentheses nothing happens. */
  lemma {:induction false} Inside(f: string, op: char, i: nat, e: Formula, s: Scan)
    requires WellFormed(e) && At(f, i, Text(e)) && 0 <= s.start <= i && s.parity > 0 && !s.bad
    ensures Run(f, op, i, i + |Text(e)|, s) == s
    decreases e
  {
    hide BelongsToName, Run, At;
    match e
    case Name(n) =>
      InsideName(f, op, i, n, s);
    case Not(a) =>
      AtParts(f, i, "!", Text(a));
      AtFits(f, i, Text(e));
      Then(f, op, i, '!', i + |Text(e)|, s);
      Inside(f, op, i + 1, a, s);
    case And(a, b) =>
      AtTwo(f, i, Text(a), '&', Text(b));
      Inside(f, op, i, a, s);
      Inside(f, op, i + |Text(a)| + 1, b, s);
      InsideTwo(f, op, i, Text(a), '&', Text(b), s);
    case Or(a, b) =>
      AtTwo(f, i, Text(a), '|', Text(b));
      Inside(f, op, i, a, s);
      Inside(f, op, i + |Text(a)| + 1, b, s);
      InsideTwo(f, op, i, Text(a), '|', Text(b), s);
    case Paren(a) =>
      AtParts(f, i, "(" + Text(a), ")");
      AtParts(f, i, "(", Text(a));
      Inside(f, op, i + 1, a, s.(parity := s.parity + 1));
      Parenthesised(f, op, i, Text(a), s);
  }

  lemma AtFits(f: string, i: nat, t: string)
    requires At(f, i, t)
    ensures i + |t| <= |f|
  {
  }

  lemma {:induction false} InsideName(f: string, op: char, i: nat, n: string, s: Scan)
    requires At(f, i, n) && 0 <= s.start <= i && s.parity > 0 && !s.bad && forall k | 0 <= k < |n| :: BelongsToName(n[k])
    ensures Run(f, op, i, i + |n|, s) == s
    decreases n
  {
    if n != "" {
      assert n == [n[0]] + n[1..];
      AtParts(f, i, [n[0]], n[1..]);
      Then(f, op, i, n[0], i + |n|, s);
      InsideName(f, op, i + 1, n[1..], s);
    }
  }

  lemma AtTwo(f: string, i: nat, a: string, c: char, b: string)
    requires At(f, i, a + [c] + b)
    ensures At(f, i, a) && At(f, i + |a|, [c]) && At(f, i + |a| + 1, b)
  {
    AtParts(f, i, a + [c], b);
    AtParts(f, i, a, [c]);
  }

  lemma InsideTwo(f: string, op: char, i: nat, a: string, c: char, b: string, s: Scan)
    requires At(f, i, a + [c] + b) && (c == '&' || c == '|') && 0 <= s.start <= i && s.parity > 0 && !s.bad
    requires Run(f, op, i, i + |a|, s) == s
    requires Run(f, op, i + |a| + 1, i + |a| + 1 + |b|, s) == s
    ensures Run(f, op, i, i + |a| + 1 + |b|, s) == s
  {
    hide BelongsToName, Run;
    AtTwo(f, i, a, c, b);
    var k := i + |a|;
    var j := k + 1 + |b|;
    RunSplit(f, op, i, k, j, s);
    Then(f, op, k, c, j, s);
  }

  /** A formula without `op` at its top level is part of one piece. */
  lemma {:induction false} Whole(f: string, op: char, i: nat, e: Formula, s: Scan)
    requires WellFormed(e) && At(f, i, Text(e)) && -1 <= s.start <= i && s.parity == 0 && !s.bad
    requires op == '|' || op == '&'
    requires op == '|' ==> !e.Or?
    requires op == '&' ==> !e.And? && !e.Or?
    ensures Run(f, op, i, i + |Text(e)|, s) == Started(s, i)
    decreases e
  {
    hide BelongsToName, Run, At;
    NotAName();
    AtFits(f, i, Text(e));
    var j := i + |Text(e)|;
    match e
    case Name(n) =>
      WholeName(f, op, i, n, s);
    case Not(a) =>
      AtParts(f, i, "!", Text(a));
      Then(f, op, i, '!', j, s);
      Whole(f, op, i + 1, a, Started(s, i));
    case And(a, b) =>
      AtTwo(f, i, Text(a), '&', Text(b));
      var k := i + |Text(a)|;
      Whole(f, op, i, a, s);
      RunSplit(f, op, i, k, j, s);
      Then(f, op, k, '&', j, Started(s, i));
      Whole(f, op, k + 1, b, Started(s, i));
    case Paren(a) =>
      AtParts(f, i, "(" + Text(a), ")");
      AtParts(f, i, "(", Text(a));
      Inside(f, op, i + 1, a, Started(s, i).(parity := 1));
      Parenthesised(f, op, i, Text(a), s);
  }

  lemma NotAName()
    ensures !BelongsToName('&') && !BelongsToName('|') && !BelongsToName('!') && !BelongsToName('(') && !BelongsToName(')')
  {
  }

  lemma {:induction false} WholeName(f: string, op: char, i: nat, n: string, s: Scan)
    requires n != "" && At(f, i, n) && -1 <= s.start <= i && s.parity == 0 && !s.bad
    requires forall k | 0 <= k < |n| :: BelongsToName(n[k])
    ensures Run(f, op, i, i + |n|, s) == Started(s, i)
    decreases n
  {
    hide BelongsToName;
    NotAName();
    assert n == [n[0]] + n[1..];
    AtParts(f, i, [n[0]], n[1..]);
    assert BelongsToName(n[0]);
    Then(f, op, i, n[0], i + |n|, s);
    if |n| > 1 {
      WholeName(f, op, i + 1, n[1..], Started(s, i));
    }
  }

  /** The text of a chain ends with the text of its last operand. */
  lemma {:induction false} EndsWithLast(e: Formula, op: char)
    ensures var os := Operands(e, op);
            var t := Text(os[|os| - 1]);
            |t| <= |Text(e)| && Text(e)[|Text(e)| - |t|..] == t
    decreases e
  {
    if (op == '|' && e.Or?) || (op == '&' && e.And?) {
      EndsWithLast(e.right, op);
      NodeParts(e, op);
      hide Text, Operands;
      var os := Operands(e.right, op);
      SameEnd(Text(e.left) + [op], Text(e.right), |Text(os[|os| - 1])|);
    }
  }

  lemma SameEnd(a: string, b: string, n: nat)
    requires n <= |b|
    ensures (a + b)[|a + b| - n..] == b[|b| - n..]
  {
  }

  lemma LastOperand(f: string, i: nat, e: Formula, op: char)
    requires At(f, i, Text(e))
    ensures var os := Operands(e, op);
            var t := Text(os[|os| - 1]);
            |t| <= |Text(e)| && f[i + |Text(e)| - |t|..i + |Text(e)|] == t
  {
    EndsWithLast(e, op);
    hide Text, Operands;
    var os := Operands(e, op);
    var n, m := |Text(e)|, |Text(os[|os| - 1])|;
    assert f[i + n - m..i + n] == f[i..i + n][n - m..];
  }

  lemma TextsJoin(a: seq<Formula>, b: seq<Formula>)
    requires a != [] && b != []
    ensures Texts((a + b)[..|a + b| - 1]) == Texts(a) + Texts(b[..|b| - 1])
  {
  }

  /** After scanning the text of `e` at `i`: the pieces are the texts of its operands, the last still
      open. */
  ghost predicate Scanned(f: string, op: char, i: nat, e: Formula, s: Scan)
    requires i + |Text(e)| <= |f| && -1 <= s.start <= i
  {
    var os := Operands(e, op);
    var n := |os| - 1;
    var last := i + |Text(e)| - |Text(os[n])|;
    last >= i && (n == 0 ==> last == i) && Run(f, op, i, i + |Text(e)|, s) == Scan(last, 0, s.pieces + Texts(os[..n]), false)
  }

  /** The scanner after the operator that follows `e`. */
  ghost function AfterCut(op: char, i: nat, e: Formula, s: Scan): Scan {
    Scan(i + |Text(e)| + 1, 0, s.pieces + Texts(Operands(e, op)), false)
  }

  lemma {:induction false} Chain(f: string, op: char, i: nat, e: Formula, s: Scan)
    requires WellFormed(e) && At(f, i, Text(e)) && (s.start == -1 || s.start == i) && s.parity == 0 && !s.bad
    requires op == '|' || op == '&'
    requires op == '&' ==> !e.Or?
    ensures Scanned(f, op, i, e, s)
    decreases e
  {
    hide BelongsToName, Run, At, StepAt;
    AtFits(f, i, Text(e));
    if (op == '|' && e.Or?) || (op == '&' && e.And?) {
      hide Scanned, Operands;
      AtTwo(f, i, Text(e.left), op, Text(e.right));
      Chain(f, op, i, e.left, s);
      Chain(f, op, i + |Text(e.left)| + 1, e.right, AfterCut(op, i, e.left, s));
      ChainNode(f, op, i, e, s);
    } else {
      Whole(f, op, i, e, s);
      assert Texts([]) == [];
    }
  }

  lemma ChainNode(f: string, op: char, i: nat, e: Formula, s: Scan)
    requires (op == '|' && e.Or?) || (op == '&' && e.And?)
    requires At(f, i, Text(e)) && (s.start == -1 || s.start == i)
    requires Scanned(f, op, i, e.left, s)
    requires Scanned(f, op, i + |Text(e.left)| + 1, e.right, AfterCut(op, i, e.left, s))
    ensures Scanned(f, op, i, e, s)
  {
    hide Text, Run, Operands, Texts, At;
    var a, b := e.left, e.right;
    AtFits(f, i, Text(e));
    NodeParts(e, op);
    ChainRun(f, op, i, e, s);
    var as_, bs := Operands(a, op), Operands(b, op);
    TextsJoin(as_, bs);
    JoinLast(as_, bs);
    Assoc(s.pieces, Texts(as_), Texts(bs[..|bs| - 1]));
  }

  lemma NodeParts(e: Formula, op: char)
    requires (op == '|' && e.Or?) || (op == '&' && e.And?)
    ensures Text(e) == Text(e.left) + [op] + Text(e.right)
    ensures Operands(e, op) == Operands(e.left, op) + Operands(e.right, op)
  {
  }

  lemma JoinLast<T>(a: seq<T>, b: seq<T>)
    requires b != []
    ensures (a + b)[|a + b| - 1] == b[|b| - 1]
  {
  }

  lemma Assoc<T>(a: seq<T>, b: seq<T>, c: seq<T>)
    ensures a + b + c == a + (b + c)
  {
  }

  lemma ChainRun(f: string, op: char, i: nat, e: Formula, s: Scan)
    requires (op == '|' && e.Or?) || (op == '&' && e.And?)
    requires At(f, i, Text(e)) && (s.start == -1 || s.start == i)
    requires Scanned(f, op, i, e.left, s)
    ensures Run(f, op, i, i + |Text(e)|, s) ==
            Run(f, op, i + |Text(e.left)| + 1, i + |Text(e)|, AfterCut(op, i, e.left, s))
  {
    hide BelongsToName, Run, At, StepAt, Scanned;
    var k, j := i + |Text(e.left)|, i + |Text(e)|;
    AtFits(f, i, Text(e));
    AtTwo(f, i, Text(e.left), op, Text(e.right));
    RunSplit(f, op, i, k, j, s);
    CutHere(f, op, i, e.left, s);
    Then(f, op, k, op, j, Run(f, op, i, k, s));
  }

  /** At an operator the piece of the last operand is cut off. */
  lemma CutHere(f: string, op: char, i: nat, a: Formula, s: Scan)
    requires At(f, i, Text(a)) && At(f, i + |Text(a)|, [op]) && (op == '|' || op == '&')
    requires -1 <= s.start <= i && Scanned(f, op, i, a, s)
    ensures StepAt(f, op, i + |Text(a)|, Run(f, op, i, i + |Text(a)|, s)) == AfterCut(op, i, a, s)
  {
    hide Run, Text, Texts, Operands, BelongsToName;
    NotAName();
    var k := i + |Text(a)|;
    assert f[k] == f[k..k + 1][0];
    LastOperand(f, i, a, op);
    var os := Operands(a, op);
    TextsLast(os);
    Assoc(s.pieces, Texts(os[..|os| - 1]), [Text(os[|os| - 1])]);
  }

  // ---------------------------------------------------------------- resolving a text

  /** Splitting the text of a formula gives the texts of its operands. */
  lemma SplitText(e: Formula, op: char)
    requires WellFormed(e) && (op == '|' || op == '&') && (op == '&' ==> !e.Or?)
    ensures Split(Text(e), op) == Pieces(Texts(Operands(e, op)))
  {
    var f := Text(e);
    assert f[0..0 + |f|] == f;
    Chain(f, op, 0, e, BEGIN);
    SplitScanned(f, op, 0, e);
  }

  /** The end of a text that was scanned from `i` on. */
  lemma SplitScanned(f: string, op: char, i: nat, e: Formula)
    requires At(f, i, Text(e)) && i + |Text(e)| == |f| && Scanned(f, op, i, e, BEGIN)
    requires Run(f, op, 0, |f|, BEGIN) == Run(f, op, i, |f|, BEGIN)
    ensures Split(f, op) == Pieces(Texts(Operands(e, op)))
  {
    hide Run, Text, Operands, Texts, At, Scanned;
    var os := Operands(e, op);
    var last := |f| - |Text(os[|os| - 1])|;
    ScannedIs(f, op, i, e);
    LastOperand(f, i, e, op);
    assert f[last..] == f[last..|f|];
    TextsLast(os);
  }

  lemma ScannedIs(f: string, op: char, i: nat, e: Formula)
    requires i + |Text(e)| == |f| && Scanned(f, op, i, e, BEGIN)
    ensures var os := Operands(e, op);
            var n := |os| - 1;
            |Text(os[n])| <= |f| && Run(f, op, i, |f|, BEGIN) == Scan(|f| - |Text(os[n])|, 0, Texts(os[..n]), false)
  {
    hide Run, Operands, Text, Texts;
    var os := Operands(e, op);
    assert [] + Texts(os[..|os| - 1]) == Texts(os[..|os| - 1]);
  }

  lemma TextsLast(es: seq<Formula>)
    requires es != []
    ensures Texts(es) == Texts(es[..|es| - 1]) + [Text(es[|es| - 1])]
  {
  }

  lemma {:induction false} OperandsAreFormulas(e: Formula, op: char)
    requires WellFormed(e)
    ensures forall k | 0 <= k < |Operands(e, op)| :: WellFormed(Operands(e, op)[k])
    ensures |Operands(e, op)| == 1 ==> Operands(e, op) == [e]
    ensures forall k | 0 <= k < |Operands(e, op)| ::
              |Text(Operands(e, op)[k])| <= |Text(e)| && (|Operands(e, op)| > 1 ==> |Text(Operands(e, op)[k])| < |Text(e)|)
    ensures op == '|' ==> (e.Or? <==> |Operands(e, op)| > 1)
    ensures op == '&' ==> (e.And? <==> |Operands(e, op)| > 1)
    decreases e
  {
    hide BelongsToName;
    if (op == '|' && e.Or?) || (op == '&' && e.And?) {
      OperandsAreFormulas(e.left, op);
      OperandsAreFormulas(e.right, op);
    }
  }

  /** The values of several formulas combined; the first error in order wins. */
  ghost function EvalAll(es: seq<Formula>, conj: bool, v: Valuation): Outcome {
    if es == [] then Value(conj)
    else
      var n := |es| - 1;
      Combine(EvalAll(es[..n], conj, v), Eval(es[n], v), conj)
  }

  lemma {:induction false} EvalAllJoin(a: seq<Formula>, b: seq<Formula>, conj: bool, v: Valuation)
    ensures EvalAll(a + b, conj, v) == Combine(EvalAll(a, conj, v), EvalAll(b, conj, v), conj)
    decreases |b|
  {
    if b == [] {
      assert a + b == a;
    } else {
      hide Eval;
      var n := |b| - 1;
      EvalAllJoin(a, b[..n], conj, v);
      assert (a + b)[..|a| + n] == a + b[..n];
    }
  }

  /** The value of a chain is the combination of the values of its operands. */
  lemma {:induction false} EvalChain(e: Formula, op: char, v: Valuation)
    requires op == '|' || op == '&'
    ensures EvalAll(Operands(e, op), op == '&', v) == Eval(e, v)
    decreases e
  {
    var conj := op == '&';
    if (op == '|' && e.Or?) || (op == '&' && e.And?) {
      EvalChain(e.left, op, v);
      EvalChain(e.right, op, v);
      EvalAllJoin(Operands(e.left, op), Operands(e.right, op), conj, v);
    } else {
      assert [e][..0] == [];
    }
  }

  /** Resolving the text of a formula gives its value, or the error of a variable without value. */
  lemma {:induction false} ResolveText(e: Formula, v: Valuation)
    requires WellFormed(e)
    ensures ResolveRec(Text(e), v) == Eval(e, v)
    decreases |Text(e)|, 1
  {
    hide BelongsToName, WellFormed, Split;
    TextChars(e);
    SplitText(e, '|');
    OperandsAreFormulas(e, '|');
    PiecesAreShorter(Text(e), '|');
    if e.Or? {
      var os := Operands(e, '|');
      ResolveOperands(os, false, v, |Text(e)|, |os|);
      assert os[..|os|] == os;
      EvalChain(e, '|', v);
    } else {
      SplitText(e, '&');
      OperandsAreFormulas(e, '&');
      PiecesAreShorter(Text(e), '&');
      if e.And? {
        var os := Operands(e, '&');
        ResolveOperands(os, true, v, |Text(e)|, |os|);
        assert os[..|os|] == os;
        EvalChain(e, '&', v);
      } else {
        ResolveSingle(e, v);
      }
    }
  }

  lemma {:induction false} ResolveOperands(os: seq<Formula>, conj: bool, v: Valuation, bound: nat, k: nat)
    requires k <= |os| && forall i | 0 <= i < |os| :: WellFormed(os[i]) && |Text(os[i])| < bound
    ensures ResolveAll(Texts(os[..k]), conj, v, bound) == EvalAll(os[..k], conj, v)
    decreases bound, 0, k
  {
    hide WellFormed, ResolveRec, Text, ResolveAll;
    var ts := Texts(os);
    assert forall i | 0 <= i <= |os| :: Texts(os[..i]) == ts[..i];
    if k > 0 {
      ResolveOperands(os, conj, v, bound, k - 1);
      ResolveText(os[k - 1], v);
      TextIsSqueezed(os[k - 1]);
      assert os[..k][..k - 1] == os[..k - 1];
      ResolveAllNext(ts, conj, v, bound, k - 1);
    } else {
      ResolveNone(conj, v, bound);
    }
  }

  lemma ResolveSingle(e: Formula, v: Valuation)
    requires WellFormed(e) && !e.Or? && !e.And?
    requires Split(Text(e), '|') == Split(Text(e), '&') == Pieces([Text(e)])
    ensures ResolveRec(Text(e), v) == Eval(e, v)
    decreases |Text(e)|, 0
  {
    hide BelongsToName, Split;
    NotAName();
    TextChars(e);
    match e
    case Name(n) =>
    case Not(a) =>
      assert Text(e)[1..] == Text(a);
      TextIsSqueezed(a);
      ResolveText(a, v);
    case Paren(a) =>
      assert Text(e)[1..|Text(e)| - 1] == Text(a);
      TextIsSqueezed(a);
      ResolveText(a, v);
  }

  /** Whatever whitespace is put into the text of a formula, it resolves to the value of the formula. */
  lemma ResolveIsEval(e: Formula, source: string, v: Valuation)
    requires WellFormed(e) && Squeeze(source) == Text(e)
    ensures Resolve(source, v) == Eval(e, v)
  {
    ResolveText(e, v);
  }

  // ---------------------------------------------------------------- texts that are not formulas

  /** A character that the scanner skips at the start of a text. */
  predicate Skipped(c: char) {
    !Starter(c) && c != ')' && !IsSpace(c)
  }

  lemma SplitLeading(c: char, e: Formula, op: char)
    requires Skipped(c) && WellFormed(e) && (op == '|' || op == '&') && (op == '&' ==> !e.Or?)
    ensures Split([c] + Text(e), op) == Pieces(Texts(Operands(e, op)))
  {
    hide Run, BelongsToName, Text, Operands, Texts, Scanned;
    var t, f := Text(e), [c] + Text(e);
    assert f[1..1 + |t|] == t && f[0..1] == [c];
    Then(f, op, 0, c, |f|, BEGIN);
    Chain(f, op, 1, e, BEGIN);
    SplitScanned(f, op, 1, e);
  }

  lemma {:induction false} BoundIsNoMatter(pieces: seq<string>, conj: bool, v: Valuation, a: nat, b: nat)
    requires forall k | 0 <= k < |pieces| :: |pieces[k]| < a && |pieces[k]| < b
    ensures ResolveAll(pieces, conj, v, a) == ResolveAll(pieces, conj, v, b)
    decreases |pieces|
  {
    hide Resolve;
    if pieces != [] {
      BoundIsNoMatter(pieces[..|pieces| - 1], conj, v, a, b);
    }
  }

  /** A character in front of a formula that can start none makes a text that is no formula. It is ignored
      when the formula has a binary operator at its top level, and an error otherwise. */
  lemma LeadingCharacter(c: char, e: Formula, v: Valuation)
    requires Skipped(c) && WellFormed(e) && [c] + Text(e) !in v
    ensures forall other | WellFormed(other) :: Text(other) != [c] + Text(e)
    ensures Resolve([c] + Text(e), v) == if e.And? || e.Or? then Eval(e, v) else Error(VariableNotFound)
  {
    hide BelongsToName, WellFormed, Split, Text;
    NotAName();
    forall other | WellFormed(other) ensures Text(other) != [c] + Text(e) {
      TextChars(other);
    }
    var f := [c] + Text(e);
    TextChars(e);
    SqueezeShortens(f);
    assert Squeeze(f) == f by {
      assert forall i | 0 <= i < |f| :: i == 0 || f[i] == Text(e)[i - 1];
      FormulaCharIsNoSpace();
    }
    SplitLeading(c, e, '|');
    OperandsAreFormulas(e, '|');
    PiecesAreShorter(f, '|');
    if e.Or? {
      LeadingOperands(e, '|', v);
    } else {
      SplitLeading(c, e, '&');
      OperandsAreFormulas(e, '&');
      PiecesAreShorter(f, '&');
      if e.And? {
        LeadingOperands(e, '&', v);
      } else {
        assert f[0] == c && f != "1" && f != "0" by { NoStarter(c); }
      }
    }
  }

  /** A character that formulas do not have, after one, is an error whatever follows. */
  lemma UnknownCharacter(e: Formula, c: char, rest: string, source: string, v: Valuation)
    requires WellFormed(e) && !FormulaChar(c) && Squeeze(source) == Text(e) + [c] + rest
    ensures Resolve(source, v) == Error(UnknownOperator)
  {
    hide BelongsToName, WellFormed, Text, Run, StepAt, Operands;
    var f, k := Squeeze(source), |Text(e)|;
    assert f[0..0 + k] == Text(e) && f[k] == c;
    Chain(f, '|', 0, e, BEGIN);
    RunSplit(f, '|', 0, k, |f|, BEGIN);
    Stopped(f, k, Run(f, '|', 0, k, BEGIN));
    SqueezeShortens(source);
  }

  lemma Stopped(f: string, k: nat, s: Scan)
    requires k < |f| && 0 <= s.start <= k && s.parity == 0 && !FormulaChar(f[k])
    ensures Run(f, '|', k, |f|, s).bad
  {
    BadStays(f, '|', k + 1, |f|, StepAt(f, '|', k, s));
  }

  lemma NoStarter(c: char)
    requires !Starter(c)
    ensures c != '1' && c != '0' && c != '!' && c != '('
  {
  }

  lemma FormulaCharIsNoSpace()
    ensures forall c | FormulaChar(c) :: !IsSpace(c)
  {
  }

  lemma LeadingOperands(e: Formula, op: char, v: Valuation)
    requires WellFormed(e) && ((op == '|' && e.Or?) || (op == '&' && e.And?))
    ensures var os := Operands(e, op);
            && (forall k | 0 <= k < |os| :: |Text(os[k])| < |Text(e)|)
            && ResolveAll(Texts(os), op == '&', v, |Text(e)| + 1) == Eval(e, v)
  {
    hide BelongsToName, WellFormed, Text, ResolveAll;
    var os := Operands(e, op);
    OperandsAreFormulas(e, op);
    ResolveOperands(os, op == '&', v, |Text(e)|, |os|);
    assert os[..|os|] == os;
    EvalChain(e, op, v);
    BoundIsNoMatter(Texts(os), op == '&', v, |Text(e)|, |Text(e)| + 1);
  }

  // ---------------------------------------------------------------- minimal parentheses

  /** A formula without parentheses. */
  datatype Plain = PName(name: string) | PNot(arg: Plain) | PAnd(left: Plain, right: Plain) | POr(left: Plain, right: Plain)

  ghost predicate Covers(v: Valuation, p: Plain) {
    match p
    case PName(n) => n != "" && (forall i | 0 <= i < |n| :: BelongsToName(n[i])) && (n == "0" || n == "1" || n in v)
    case PNot(a) => Covers(v, a)
    case PAnd(a, b) => Covers(v, a) && Covers(v, b)
    case POr(a, b) => Covers(v, a) && Covers(v, b)
  }

  ghost predicate Truth(p: Plain, v: Valuation)
    requires Covers(v, p)
  {
    match p
    case PName(n) => n == "1" || (n != "0" && v[n])
    case PNot(a) => !Truth(a, v)
    case PAnd(a, b) => Truth(a, v) && Truth(b, v)
    case POr(a, b) => Truth(a, v) || Truth(b, v)
  }

  /** Parentheses only where an operand binds less tightly. */
  function Minimal(p: Plain): Formula {
    match p
    case PName(n) => Name(n)
    case PNot(a) => Not(if a.PAnd? || a.POr? then Paren(Minimal(a)) else Minimal(a))
    case PAnd(a, b) => And(if a.POr? then Paren(Minimal(a)) else Minimal(a), if b.POr? then Paren(Minimal(b)) else Minimal(b))
    case POr(a, b) => Or(Minimal(a), Minimal(b))
  }

  lemma {:induction false} MinimalMeans(p: Plain, v: Valuation)
    requires Covers(v, p)
    ensures WellFormed(Minimal(p)) && Eval(Minimal(p), v) == Value(Truth(p, v))
    ensures (Minimal(p).Or? <==> p.POr?) && (Minimal(p).And? <==> p.PAnd?)
    decreases p
  {
    hide BelongsToName;
    match p
    case PName(n) =>
    case PNot(a) => MinimalMeans(a, v);
    case PAnd(a, b) => MinimalMeans(a, v); MinimalMeans(b, v);
    case POr(a, b) => MinimalMeans(a, v); MinimalMeans(b, v);
  }

  /** Every formula, printed with as few parentheses as possible and any whitespace, resolves to its truth
      value. */
  lemma ResolveIsTruth(p: Plain, source: string, v: Valuation)
    requires Covers(v, p) && Squeeze(source) == Text(Minimal(p))
    ensures Resolve(source, v) == Value(Truth(p, v))
  {
    MinimalMeans(p, v);
    ResolveIsEval(Minimal(p), source, v);
  }
}
