/** The evaluator of verifier strings (src/LibBoolEE.cpp): splitting at top-level operators and resolving
    the pieces. */
module BoolParse {
  import opened Common

  datatype ErrorKind = EmptySubExpression | UnknownOperator | ParenthesisParity | NotAFormula | VariableNotFound

  datatype Outcome = Value(value: bool) | Error(kind: ErrorKind)

  type Valuation = map<string, bool>

  predicate BelongsToName(ch: char) {
    'a' <= ch <= 'z' || 'A' <= ch <= 'Z' || '0' <= ch <= '9' || ch == '_' || ch == '#' || ch == '.'
  }

  const LETTERS := "abcdefghijklmnopqrstuvwxyz"
  const CAPITALS := "ABCDEFGHIJKLMNOPQRSTUVWXYZ"

  lemma SmallLetters(ch: char)
    ensures 'a' <= ch <= 'z' <==> ch in LETTERS
  {
    if 'a' <= ch <= 'z' {
      assert LETTERS[ch as int - 97] == ch;
    }
  }

  lemma CapitalLetters(ch: char)
    ensures 'A' <= ch <= 'Z' <==> ch in CAPITALS
  {
    if 'A' <= ch <= 'Z' {
      assert CAPITALS[ch as int - 65] == ch;
    }
  }

  /** The characters of names, and those that are ignored. */
  lemma Characters(ch: char)
    ensures BelongsToName(ch) <==> ch in LETTERS || ch in CAPITALS || ch in "0123456789_#."
    ensures IsSpace(ch) <==> ch as int in {9, 10, 11, 12, 13, 32}
  {
    hide LETTERS, CAPITALS;
    SmallLetters(ch);
    CapitalLetters(ch);
    if '0' <= ch <= '9' {
      assert "0123456789_#."[ch as int - 48] == ch;
    }
  }

  /** `removeWhitespaces`. */
  function Squeeze(s: string): string {
    if s == "" then "" else Squeeze(s[..|s| - 1]) + if IsSpace(s[|s| - 1]) then "" else [s[|s| - 1]]
  }

  lemma {:induction false} SqueezeShortens(s: string)
    ensures |Squeeze(s)| <= |s|
    ensures (forall i | 0 <= i < |s| :: !IsSpace(s[i])) ==> Squeeze(s) == s
  {
    if s != "" {
      SqueezeShortens(s[..|s| - 1]);
    }
  }

  method RemoveWhitespaces(source: string) returns (result: string)
    ensures result == Squeeze(source)
  {
    result := "";
    for i := 0 to |source|
      invariant result == Squeeze(source[..i])
    {
      if !IsSpace(source[i]) {
        result := result + [source[i]];
      }
      assert source[..i + 1][..i] == source[..i];
    }
    assert source[..|source|] == source;
  }

  // ---------------------------------------------------------------- singleParse

  /** The scanner: where the current piece starts (-1 before the first), the open parentheses, the pieces
      so far, and whether an unknown operator was met. */
  datatype Scan = Scan(start: int, parity: int, pieces: seq<string>, bad: bool)

  /** The effect of character `i`. */
  function StepAt(f: string, op: char, i: nat, s: Scan): Scan
    requires i < |f| && -1 <= s.start <= i
  {
    if s.bad then s
    else if f[i] == ')' then s.(parity := s.parity - 1)
    else if f[i] == '(' then s.(parity := s.parity + 1, start := if s.start == -1 then i else s.start)
    else if s.parity != 0 then s
    else if s.start == -1 then (if BelongsToName(f[i]) || f[i] == '!' then s.(start := i) else s)
    else if BelongsToName(f[i]) || f[i] == '!' then s
    else if op == f[i] then s.(pieces := s.pieces + [f[s.start..i]], start := i + 1)
    else if f[i] != '&' && f[i] != '|' then s.(bad := true)
    else s
  }

  /** Scanning the characters from `i` to `j`. */
  function Run(f: string, op: char, i: nat, j: nat, s: Scan): (r: Scan)
    requires i <= j <= |f| && -1 <= s.start <= i
    ensures -1 <= r.start <= j
    decreases j - i
  {
    if i == j then s else Run(f, op, i + 1, j, StepAt(f, op, i, s))
  }

  lemma {:induction false} RunSplit(f: string, op: char, i: nat, k: nat, j: nat, s: Scan)
    requires i <= k <= j <= |f| && -1 <= s.start <= i
    ensures Run(f, op, i, j, s) == Run(f, op, k, j, Run(f, op, i, k, s))
    decreases k - i
  {
    if i < k {
      RunSplit(f, op, i + 1, k, j, StepAt(f, op, i, s));
    }
  }

  const BEGIN := Scan(-1, 0, [], false)

  datatype Parsed = Pieces(pieces: seq<string>) | Bad(kind: ErrorKind)

  /** The pieces of `f` between top-level operators `op`. */
  function Split(f: string, op: char): Parsed {
    var s := Run(f, op, 0, |f|, BEGIN);
    if s.bad then Bad(UnknownOperator)
    else if s.parity != 0 then Bad(ParenthesisParity)
    else Pieces(if s.start != -1 then s.pieces + [f[s.start..]] else s.pieces)
  }

  /** Pieces cut off so far are shorter than the text; a piece that follows one starts after it. */
  ghost predicate Cut(f: string, i: nat, s: Scan) {
    && -1 <= s.start <= i && (s.pieces != [] ==> s.start > 0)
    && forall k | 0 <= k < |s.pieces| :: |s.pieces[k]| < |f|
  }

  lemma {:induction false} CutKeeps(f: string, op: char, i: nat, j: nat, s: Scan)
    requires i <= j <= |f| && Cut(f, i, s)
    ensures Cut(f, j, Run(f, op, i, j, s))
    decreases j - i
  {
    if i < j {
      CutKeeps(f, op, i + 1, j, StepAt(f, op, i, s));
    }
  }

  /** When there is more than one piece, each is shorter than the whole. */
  lemma PiecesAreShorter(f: string, op: char)
    ensures Split(f, op).Pieces? && |Split(f, op).pieces| > 1 ==>
              forall k | 0 <= k < |Split(f, op).pieces| :: |Split(f, op).pieces[k]| < |f|
    ensures f == "" ==> Split(f, op) == Pieces([])
    ensures Split(f, op).Pieces? && f != "" && f[0] == '(' ==> |f| >= 2
  {
    CutKeeps(f, op, 0, |f|, BEGIN);
    if |f| == 1 && f[0] == '(' {
      assert Run(f, op, 1, 1, StepAt(f, op, 0, BEGIN)).parity == 1;
    }
  }

  method SingleParse(f: string, op: char) returns (r: Parsed)
    ensures r == Split(f, op)
  {
    var start, parity := -1, 0;
    var pieces: seq<string> := [];
    for i := 0 to |f|
      invariant -1 <= start <= i && Run(f, op, i, |f|, Scan(start, parity, pieces, false)) == Run(f, op, 0, |f|, BEGIN)
    {
      if f[i] == ')' {
        parity := parity - 1;
      } else if f[i] == '(' {
        parity := parity + 1;
        if start == -1 {
          start := i;
        }
      } else if parity == 0 {
        if start == -1 {
          if BelongsToName(f[i]) || f[i] == '!' {
            start := i;
          }
        } else if !(BelongsToName(f[i]) || f[i] == '!') {
          if op == f[i] {
            pieces := pieces + [f[start..i]];
            start := i + 1;
          } else if f[i] != '&' && f[i] != '|' {
            BadStays(f, op, i + 1, |f|, Scan(start, parity, pieces, true));
            return Bad(UnknownOperator);
          }
        }
      }
    }
    if start != -1 {
      pieces := pieces + [f[start..]];
    }
    if parity != 0 {
      return Bad(ParenthesisParity);
    }
    return Pieces(pieces);
  }

  lemma {:induction false} BadStays(f: string, op: char, i: nat, j: nat, s: Scan)
    requires i <= j <= |f| && -1 <= s.start <= i && s.bad
    ensures Run(f, op, i, j, s).bad
    decreases j - i
  {
    if i < j {
      BadStays(f, op, i + 1, j, s);
    }
  }

  // ---------------------------------------------------------------- resolve

  /** `resolve`: whitespace is removed at every level. Every recursive call is on a shorter text. */
  function Resolve(source: string, v: Valuation): Outcome
    decreases |source|, 1
  {
    SqueezeShortens(source);
    ResolveRec(Squeeze(source), v)
  }

  function ResolveRec(source: string, v: Valuation): Outcome
    decreases |source|, 0
  {
    if source == "" then Error(EmptySubExpression)
    else
      var byOr := Split(source, '|');
      PiecesAreShorter(source, '|');
      if byOr.Bad? then Error(byOr.kind)
      else if |byOr.pieces| > 1 then ResolveAll(byOr.pieces, false, v, |source|)
      else if byOr.pieces == [] then Error(NotAFormula)
      else
        var byAnd := Split(source, '&');
        PiecesAreShorter(source, '&');
        if byAnd.Bad? then Error(byAnd.kind)
        else if |byAnd.pieces| > 1 then ResolveAll(byAnd.pieces, true, v, |source|)
        else if byAnd.pieces == [] then Error(NotAFormula)
        else if source[0] == '!' then Negate(Resolve(source[1..], v))
        else if source[0] == '(' then Resolve(source[1..|source| - 1], v)
        else if source == "1" then Value(true)
        else if source == "0" then Value(false)
        else if source !in v then Error(VariableNotFound)
        else Value(v[source])
  }

  function Negate(o: Outcome): Outcome {
    if o.Value? then Value(!o.value) else o
  }

  /** The conjunction or disjunction of all pieces; the first error in order is the outcome. */
  function ResolveAll(pieces: seq<string>, conj: bool, v: Valuation, bound: nat): Outcome
    requires forall k | 0 <= k < |pieces| :: |pieces[k]| < bound
    decreases bound, 0, |pieces|
  {
    if pieces == [] then Value(conj)
    else
      var n := |pieces| - 1;
      Combine(ResolveAll(pieces[..n], conj, v, bound), Resolve(pieces[n], v), conj)
  }

  function Combine(x: Outcome, y: Outcome, conj: bool): Outcome {
    if x.Error? then x else if y.Error? then y else Value(if conj then x.value && y.value else x.value || y.value)
  }

  lemma ResolveAllNext(pieces: seq<string>, conj: bool, v: Valuation, bound: nat, k: nat)
    requires k < |pieces| && forall i | 0 <= i < |pieces| :: |pieces[i]| < bound
    ensures ResolveAll(pieces[..0], conj, v, bound) == Value(conj)
    ensures ResolveAll(pieces[..k + 1], conj, v, bound) ==
            Combine(ResolveAll(pieces[..k], conj, v, bound), Resolve(pieces[k], v), conj)
  {
    hide Resolve;
    assert pieces[..k + 1][..k] == pieces[..k];
  }

  /** The evaluator as written, with loops over the pieces. */
  method Evaluate(source: string, v: Valuation) returns (r: Outcome)
    ensures r == Resolve(source, v)
    decreases |source|, 1
  {
    SqueezeShortens(source);
    var squeezed := RemoveWhitespaces(source);
    r := EvaluateRec(squeezed, v);
  }

  method EvaluateRec(source: string, v: Valuation) returns (r: Outcome)
    ensures r == ResolveRec(source, v)
    decreases |source|, 0
  {
    if source == "" {
      return Error(EmptySubExpression);
    }
    hide ResolveAll, Split;
    var op := '|';
    PiecesAreShorter(source, '|');
    PiecesAreShorter(source, '&');
    var parsed := SingleParse(source, op);
    if parsed.Bad? {
      return Error(parsed.kind);
    }
    if |parsed.pieces| == 1 {
      op := '&';
      parsed := SingleParse(source, op);
      if parsed.Bad? {
        return Error(parsed.kind);
      }
    }
    var pieces := parsed.pieces;
    if pieces == [] {
      return Error(NotAFormula);
    } else if |pieces| == 1 {
      if source[0] == '!' {
        var o := Evaluate(source[1..], v);
        return Negate(o);
      } else if source[0] == '(' {
        r := Evaluate(source[1..|source| - 1], v);
        return;
      } else if source == "1" {
        return Value(true);
      } else if source == "0" {
        return Value(false);
      } else if source !in v {
        return Error(VariableNotFound);
      } else {
        return Value(v[source]);
      }
    }
    r := EvaluateAll(pieces, op == '&', v, |source|);
  }

  method EvaluateAll(pieces: seq<string>, conj: bool, v: Valuation, ghost bound: nat) returns (r: Outcome)
    requires forall k | 0 <= k < |pieces| :: |pieces[k]| < bound
    ensures r == ResolveAll(pieces, conj, v, bound)
    decreases bound, 0, 0
  {
    hide ResolveAll, Resolve;
    var result := conj;
    assert ResolveAll(pieces[..0], conj, v, bound) == Value(conj) by { ResolveNone(conj, v, bound); }
    for k := 0 to |pieces|
      invariant ResolveAll(pieces[..k], conj, v, bound) == Value(result)
    {
      var o := Evaluate(pieces[k], v);
      ResolveAllNext(pieces, conj, v, bound, k);
      if o.Error? {
        FirstError(pieces, conj, v, bound, k + 1, |pieces|);
        assert pieces[..|pieces|] == pieces;
        return o;
      }
      result := if conj then result && o.value else result || o.value;
    }
    assert pieces[..|pieces|] == pieces;
    r := Value(result);
  }

  lemma ResolveNone(conj: bool, v: Valuation, bound: nat)
    ensures ResolveAll([], conj, v, bound) == Value(conj)
  {
  }

  lemma {:induction false} FirstError(pieces: seq<string>, conj: bool, v: Valuation, bound: nat, k: nat, n: nat)
    requires k <= n <= |pieces| && forall i | 0 <= i < |pieces| :: |pieces[i]| < bound
    requires ResolveAll(pieces[..k], conj, v, bound).Error?
    ensures ResolveAll(pieces[..n], conj, v, bound) == ResolveAll(pieces[..k], conj, v, bound)
    decreases n
  {
    hide ResolveAll, Resolve;
    if k < n {
      FirstError(pieces, conj, v, bound, k, n - 1);
      ResolveAllNext(pieces, conj, v, bound, n - 1);
    }
  }
}
