// What becomes of any list of tokens, whether or not it is an expression: when
// evaluation can panic, what each error says about the tokens, and which error
// each malformed shape gets.
module ScriptFaults {
  import opened Wrappers
  import opened Bits
  import opened ScriptGrammar
  import opened ScriptRun

  datatype CalcResult = CalcOk(value: int) | CalcErr(error: ScriptError) | CalcPanic

  // The outcome for a list of tokens: of a panic, an error and a value exactly one.
  ghost function Answer(ts: seq<Token>, vars: map<seq<Byte>, int>): CalcResult {
    if ts == [] then CalcErr(EmptyExpression)
    else
      match RunSum(ts, 0, vars, None)
      case Panic => CalcPanic
      case Ran(v, q, e) =>
        if e.Some? then CalcErr(e.value) else if q != |ts| then CalcErr(UnexpectedTokens) else CalcOk(v)
  }

  // ---------- when evaluation can panic ----------

  // The value of an expression whose faults count as zero; None when a number or a result in it leaves
  // the 64-bit range.
  function Plain(x: Expr, vars: map<seq<Byte>, int>): Option<int> {
    match x
    case Lit(n) => Checked(n)
    case Ref(name) => if name in vars then Some(vars[name]) else Some(0)
    case Neg(y) =>
      var a := Plain(y, vars);
      if a.None? then None else Checked(-a.value)
    case Add(l, r) => PlainOf(Plus, Plain(l, vars), Plain(r, vars))
    case Sub(l, r) => PlainOf(Minus, Plain(l, vars), Plain(r, vars))
    case Mul(l, r) => PlainOf(Star, Plain(l, vars), Plain(r, vars))
    case Div(l, r) => PlainOf(Slash, Plain(l, vars), Plain(r, vars))
  }

  function PlainOf(op: Token, a: Option<int>, b: Option<int>): Option<int>
    requires IsOperator(op)
  {
    if a.None? || b.None? then None
    else if op == Slash && b.value == 0 then Some(0)
    else Checked(Result(op, a.value, b.value))
  }

  predicate IsOperator(t: Token) { t in {Plus, Minus, Star, Slash} }

  function Binary(op: Token, l: Expr, r: Expr): Expr
    requires IsOperator(op)
  {
    match op
    case Plus => Add(l, r)
    case Minus => Sub(l, r)
    case Star => Mul(l, r)
    case _ => Div(l, r)
  }

  // The expression can be read off the tokens in their order, each operator between the tokens of its
  // operands; a zero may stand for an operand that is not there.
  ghost predicate Made(x: Expr, t: seq<Token>) {
    match x
    case Lit(n) => n == 0 || Num(n) in t
    case Ref(name) => Ident(name) in t
    case Neg(y) => exists i :: 0 <= i < |t| && t[i] == Minus && Made(y, t[i + 1..])
    case Add(l, r) => exists i :: 0 <= i < |t| && t[i] == Plus && Made(l, t[..i]) && Made(r, t[i + 1..])
    case Sub(l, r) => exists i :: 0 <= i < |t| && t[i] == Minus && Made(l, t[..i]) && Made(r, t[i + 1..])
    case Mul(l, r) => exists i :: 0 <= i < |t| && t[i] == Star && Made(l, t[..i]) && Made(r, t[i + 1..])
    case Div(l, r) => exists i :: 0 <= i < |t| && t[i] == Slash && Made(l, t[..i]) && Made(r, t[i + 1..])
  }

  lemma {:induction false} Wider(x: Expr, a: seq<Token>, t: seq<Token>, b: seq<Token>)
    requires Made(x, t)
    ensures Made(x, a + t + b)
    decreases x, 1
  {
    match x
    case Lit(n) => if n != 0 { InWider(Num(n), a, t, b); }
    case Ref(name) => InWider(Ident(name), a, t, b);
    case Neg(y) =>
      var i :| 0 <= i < |t| && t[i] == Minus && Made(y, t[i + 1..]);
      Wider(y, [], t[i + 1..], b);
      Shifted(a, t, b, i);
    case Add(l, r) =>
      var i :| 0 <= i < |t| && t[i] == Plus && Made(l, t[..i]) && Made(r, t[i + 1..]);
      WiderPair(x, l, r, a, t, b, i);
    case Sub(l, r) =>
      var i :| 0 <= i < |t| && t[i] == Minus && Made(l, t[..i]) && Made(r, t[i + 1..]);
      WiderPair(x, l, r, a, t, b, i);
    case Mul(l, r) =>
      var i :| 0 <= i < |t| && t[i] == Star && Made(l, t[..i]) && Made(r, t[i + 1..]);
      WiderPair(x, l, r, a, t, b, i);
    case Div(l, r) =>
      var i :| 0 <= i < |t| && t[i] == Slash && Made(l, t[..i]) && Made(r, t[i + 1..]);
      WiderPair(x, l, r, a, t, b, i);
  }

  lemma {:induction false} WiderPair(x: Expr, l: Expr, r: Expr, a: seq<Token>, t: seq<Token>, b: seq<Token>, i: nat)
    requires l < x && r < x && i < |t| && Made(l, t[..i]) && Made(r, t[i + 1..])
    ensures |a| + i < |a + t + b| && (a + t + b)[|a| + i] == t[i]
    ensures Made(l, (a + t + b)[..|a| + i]) && Made(r, (a + t + b)[|a| + i + 1..])
    decreases x, 0
  {
    Wider(l, a, t[..i], []);
    Wider(r, [], t[i + 1..], b);
    Shifted(a, t, b, i);
  }

  lemma Shifted(a: seq<Token>, t: seq<Token>, b: seq<Token>, i: nat)
    requires i < |t|
    ensures |a| + i < |a + t + b| && (a + t + b)[|a| + i] == t[i]
    ensures (a + t + b)[..|a| + i] == a + t[..i] + [] && (a + t + b)[|a| + i + 1..] == [] + t[i + 1..] + b
  {
  }

  lemma InWider(x: Token, a: seq<Token>, t: seq<Token>, b: seq<Token>)
    requires x in t
    ensures x in a + t + b
  {
  }

  lemma Within(x: Expr, ts: seq<Token>, i: nat, j: nat, from: nat, to: nat)
    requires from <= i <= j <= to <= |ts| && Made(x, ts[i..j])
    ensures Made(x, ts[from..to])
  {
    Wider(x, ts[from..i], ts[i..j], ts[j..to]);
    assert ts[from..i] + ts[i..j] + ts[j..to] == ts[from..to];
  }

  lemma Around(ts: seq<Token>, start: nat, pos: nat, q: nat, l: Expr, r: Expr)
    requires start <= pos < q <= |ts| && IsOperator(ts[pos]) && Made(l, ts[start..pos]) && Made(r, ts[pos + 1..q])
    ensures Made(Binary(ts[pos], l, r), ts[start..q])
  {
    hide Made;
    var t, i := ts[start..q], pos - start;
    assert t[i] == ts[pos] && t[..i] == ts[start..pos] && t[i + 1..] == ts[pos + 1..q];
    AtOperator(t, i, l, r);
  }

  lemma AtOperator(t: seq<Token>, i: nat, l: Expr, r: Expr)
    requires i < |t| && IsOperator(t[i]) && Made(l, t[..i]) && Made(r, t[i + 1..])
    ensures Made(Binary(t[i], l, r), t)
  {
  }

  // The run has x in hand, or stopped at a number or a result in x.
  ghost predicate Meets(x: Expr, r: Ran, ts: seq<Token>, start: nat, vars: map<seq<Byte>, int>)
    requires start <= |ts|
  {
    match r
    case Panic => Plain(x, vars).None? && Made(x, ts[start..|ts|])
    case Ran(v, q, _) => start <= q <= |ts| && Plain(x, vars) == Some(v) && Made(x, ts[start..q])
  }

  lemma {:induction false} AtomMeets(ts: seq<Token>, pos: nat, vars: map<seq<Byte>, int>, e: Option<ScriptError>)
    returns (x: Expr)
    requires pos <= |ts|
    ensures Meets(x, RunAtom(ts, pos, vars, e), ts, pos, vars)
    decreases |ts| - pos, 0
  {
    hide RunSum, RunAtom, InRange, Made, Plain;
    if pos < |ts| && ts[pos] == LParen {
      x := SumMeets(ts, pos + 1, vars, e);
      ParensMeets(ts, pos, x, vars, e);
    } else if pos < |ts| && ts[pos] == Minus {
      x := AtomMeets(ts, pos + 1, vars, e);
      NegMeets(ts, pos, x, vars, e);
      if RunAtom(ts, pos + 1, vars, e).Ran? { x := Neg(x); }
    } else {
      x := LeafMeets(ts, pos, vars, e);
    }
  }

  lemma ParensMeets(ts: seq<Token>, pos: nat, x: Expr, vars: map<seq<Byte>, int>, e: Option<ScriptError>)
    requires pos < |ts| && ts[pos] == LParen && Meets(x, RunSum(ts, pos + 1, vars, e), ts, pos + 1, vars)
    ensures Meets(x, RunAtom(ts, pos, vars, e), ts, pos, vars)
  {
    hide RunSum, Made, Plain;
    var r, a := RunSum(ts, pos + 1, vars, e), RunAtom(ts, pos, vars, e);
    if r.Panic? { Within(x, ts, pos + 1, |ts|, pos, |ts|); } else { Within(x, ts, pos + 1, r.pos, pos, a.pos); }
  }

  lemma NegMeets(ts: seq<Token>, pos: nat, x: Expr, vars: map<seq<Byte>, int>, e: Option<ScriptError>)
    requires pos < |ts| && ts[pos] == Minus && Meets(x, RunAtom(ts, pos + 1, vars, e), ts, pos + 1, vars)
    ensures var y := if RunAtom(ts, pos + 1, vars, e).Ran? then Neg(x) else x;
            Meets(y, RunAtom(ts, pos, vars, e), ts, pos, vars)
  {
    hide RunAtom, Made, InRange, Plain;
    var r := RunAtom(ts, pos + 1, vars, e);
    NegRun(ts, pos, vars, e);
    PlainNeg(x, vars);
    if r.Panic? {
      Within(x, ts, pos + 1, |ts|, pos, |ts|);
    } else {
      NegMade(ts, pos, r.pos, x);
      Within(Neg(x), ts, pos, r.pos, pos, |ts|);
    }
  }

  lemma PlainNeg(x: Expr, vars: map<seq<Byte>, int>)
    ensures Plain(Neg(x), vars)
            == if Plain(x, vars).Some? && InRange(-Plain(x, vars).value) then Some(-Plain(x, vars).value) else None
  {
    hide InRange, PlainOf;
  }

  lemma NegRun(ts: seq<Token>, pos: nat, vars: map<seq<Byte>, int>, e: Option<ScriptError>)
    requires pos < |ts| && ts[pos] == Minus
    ensures RunAtom(ts, pos, vars, e)
            == match RunAtom(ts, pos + 1, vars, e)
               case Panic => Panic
               case Ran(v, q, e1) => if InRange(-v) then Ran(-v, q, e1) else Panic
  {
    hide InRange;
  }

  lemma NegMade(ts: seq<Token>, pos: nat, q: nat, y: Expr)
    requires pos < q <= |ts| && ts[pos] == Minus && Made(y, ts[pos + 1..q])
    ensures Made(Neg(y), ts[pos..q])
  {
    var t := ts[pos..q];
    assert t[0] == Minus && t[0 + 1..] == ts[pos + 1..q];
  }

  lemma LeafMeets(ts: seq<Token>, pos: nat, vars: map<seq<Byte>, int>, e: Option<ScriptError>) returns (x: Expr)
    requires pos <= |ts| && (pos < |ts| ==> ts[pos] != LParen && ts[pos] != Minus)
    ensures Meets(x, RunAtom(ts, pos, vars, e), ts, pos, vars)
  {
    x := Lit(0);
    if pos < |ts| {
      assert ts[pos..pos + 1][0] == ts[pos] && ts[pos..|ts|][0] == ts[pos];
      if ts[pos].Num? { x := Lit(ts[pos].n); }
      if ts[pos].Ident? { x := Ref(ts[pos].name); }
    }
  }

  lemma {:induction false} ProductMeets(ts: seq<Token>, pos: nat, vars: map<seq<Byte>, int>, e: Option<ScriptError>)
    returns (x: Expr)
    requires pos <= |ts|
    ensures Meets(x, RunProduct(ts, pos, vars, e), ts, pos, vars)
    decreases |ts| - pos, 1
  {
    hide RunAtom, RunProductRest, Made, Plain;
    x := AtomMeets(ts, pos, vars, e);
    var r := RunAtom(ts, pos, vars, e);
    if r.Ran? { x := ProductRestMeets(ts, pos, r.pos, r.value, x, vars, r.error); }
  }

  lemma {:induction false} ProductRestMeets(ts: seq<Token>, start: nat, pos: nat, left: int, y: Expr,
                                            vars: map<seq<Byte>, int>, e: Option<ScriptError>) returns (x: Expr)
    requires start <= pos <= |ts| && Plain(y, vars) == Some(left) && Made(y, ts[start..pos])
    ensures Meets(x, RunProductRest(ts, pos, left, vars, e), ts, start, vars)
    decreases |ts| - pos, 0
  {
    x := y;
    if pos < |ts| && (ts[pos] == Star || ts[pos] == Slash) {
      hide RunAtom, InRange, Result, Made, Plain, Binary;
      var z := AtomMeets(ts, pos + 1, vars, e);
      var r, op := RunAtom(ts, pos + 1, vars, e), ts[pos];
      OutOfProduct(ts, pos, left, vars, e);
      if r.Panic? {
        x := z;
        Within(z, ts, pos + 1, |ts|, start, |ts|);
      } else {
        x := Binary(op, y, z);
        Extended(ts, start, pos, r.pos, y, z, left, r.value, vars);
        Within(x, ts, start, r.pos, start, |ts|);
        if !(op == Slash && r.value == 0) && InRange(Result(op, left, r.value)) {
          x := ProductRestMeets(ts, start, r.pos, Result(op, left, r.value), x, vars, r.error);
        }
      }
    }
  }

  lemma PlainBinary(op: Token, l: Expr, r: Expr, vars: map<seq<Byte>, int>)
    requires IsOperator(op)
    ensures Plain(Binary(op, l, r), vars) == PlainOf(op, Plain(l, vars), Plain(r, vars))
  {
    hide PlainOf;
  }

  // One operation more in hand.
  lemma Extended(ts: seq<Token>, start: nat, pos: nat, q: nat, l: Expr, r: Expr, a: int, b: int,
                 vars: map<seq<Byte>, int>)
    requires start <= pos < q <= |ts| && IsOperator(ts[pos]) && Made(l, ts[start..pos]) && Made(r, ts[pos + 1..q])
    requires Plain(l, vars) == Some(a) && Plain(r, vars) == Some(b)
    ensures Made(Binary(ts[pos], l, r), ts[start..q])
    ensures Plain(Binary(ts[pos], l, r), vars)
            == if ts[pos] == Slash && b == 0 then Some(0)
               else if InRange(Result(ts[pos], a, b)) then Some(Result(ts[pos], a, b))
               else None
  {
    hide Made, Plain, Binary, InRange, Result;
    Around(ts, start, pos, q, l, r);
    PlainBinary(ts[pos], l, r, vars);
  }

  lemma {:induction false} SumMeets(ts: seq<Token>, pos: nat, vars: map<seq<Byte>, int>, e: Option<ScriptError>)
    returns (x: Expr)
    requires pos <= |ts|
    ensures Meets(x, RunSum(ts, pos, vars, e), ts, pos, vars)
    decreases |ts| - pos, 2
  {
    hide RunProduct, RunSumRest, Made, Plain;
    x := ProductMeets(ts, pos, vars, e);
    var r := RunProduct(ts, pos, vars, e);
    if r.Ran? { x := SumRestMeets(ts, pos, r.pos, r.value, x, vars, r.error); }
  }

  lemma {:induction false} SumRestMeets(ts: seq<Token>, start: nat, pos: nat, left: int, y: Expr,
                                        vars: map<seq<Byte>, int>, e: Option<ScriptError>) returns (x: Expr)
    requires start <= pos <= |ts| && Plain(y, vars) == Some(left) && Made(y, ts[start..pos])
    ensures Meets(x, RunSumRest(ts, pos, left, vars, e), ts, start, vars)
    decreases |ts| - pos, 0
  {
    x := y;
    if pos < |ts| && (ts[pos] == Plus || ts[pos] == Minus) {
      hide RunProduct, InRange, Result, Made, Plain, Binary;
      var z := ProductMeets(ts, pos + 1, vars, e);
      var r, op := RunProduct(ts, pos + 1, vars, e), ts[pos];
      OutOfSum(ts, pos, left, vars, e);
      if r.Panic? {
        x := z;
        Within(z, ts, pos + 1, |ts|, start, |ts|);
      } else {
        x := Binary(op, y, z);
        Extended(ts, start, pos, r.pos, y, z, left, r.value, vars);
        Within(x, ts, start, r.pos, start, |ts|);
        if InRange(Result(op, left, r.value)) {
          x := SumRestMeets(ts, start, r.pos, Result(op, left, r.value), x, vars, r.error);
        }
      }
    }
  }

  // Whatever the tokens, evaluation panics only at a number or a result outside 64 bits: some expression
  // that they spell in their order has one.
  lemma PanicMeans(ts: seq<Token>, vars: map<seq<Byte>, int>)
    requires Answer(ts, vars) == CalcPanic
    ensures exists x :: Made(x, ts) && Plain(x, vars).None?
  {
    hide Made, Plain, RunSum;
    var x := SumMeets(ts, 0, vars, None);
    assert ts[0..|ts|] == ts;
  }

  // ---------- texts that never panic ----------

  function Abs(v: int): nat { if v < 0 then -v else v }

  function Weight(t: Token, vars: map<seq<Byte>, int>): (w: nat)
    ensures w > 0
  {
    match t
    case Num(n) => n + 1
    case Ident(name) => if name in vars then Abs(vars[name]) + 1 else 1
    case _ => 1
  }

  // The product of all operands, each one larger than it is.
  function Weights(ts: seq<Token>, vars: map<seq<Byte>, int>): (w: nat)
    ensures w > 0
  {
    if ts == [] then 1
    else
      TimesGrows(Weights(ts[..|ts| - 1], vars), Weight(ts[|ts| - 1], vars));
      Times(Weights(ts[..|ts| - 1], vars), Weight(ts[|ts| - 1], vars))
  }

  function Times(a: nat, b: nat): nat { a * b }

  lemma TimesGrows(a: nat, b: nat)
    requires a > 0 && b > 0
    ensures Times(a, b) >= a && Times(a, b) >= b
  {
    assert a * b == a + a * (b - 1) && a * b == b + (a - 1) * b;
  }

  lemma TimesAssoc(a: nat, b: nat, c: nat)
    ensures Times(Times(a, b), c) == Times(a, Times(b, c))
  {
  }

  lemma {:induction false} WeightsJoin(a: seq<Token>, b: seq<Token>, vars: map<seq<Byte>, int>)
    ensures Weights(a + b, vars) == Times(Weights(a, vars), Weights(b, vars))
  {
    hide Times, Weight;
    if b == [] {
      assert a + b == a;
      TimesOne(Weights(a, vars));
    } else {
      var n := |b| - 1;
      WeightsJoin(a, b[..n], vars);
      assert (a + b)[..|a + b| - 1] == a + b[..n] && (a + b)[|a + b| - 1] == b[n];
      TimesAssoc(Weights(a, vars), Weights(b[..n], vars), Weight(b[n], vars));
    }
  }

  lemma TimesOne(a: nat)
    ensures Times(a, 1) == a && Times(1, a) == a
  {
  }

  lemma OneWeight(t: Token, vars: map<seq<Byte>, int>)
    ensures Weights([t], vars) == Weight(t, vars)
  {
    TimesOne(Weight(t, vars));
  }

  // What the token at i weighs with what is before and what is after it.
  lemma WeightsAt(t: seq<Token>, i: nat, vars: map<seq<Byte>, int>)
    requires i < |t|
    ensures Weights(t, vars) == Times(Times(Weights(t[..i], vars), Weight(t[i], vars)), Weights(t[i + 1..], vars))
  {
    hide Times, Weight, Weights;
    assert t == t[..i] + [t[i]] + t[i + 1..];
    WeightsJoin(t[..i] + [t[i]], t[i + 1..], vars);
    WeightsJoin(t[..i], [t[i]], vars);
    OneWeight(t[i], vars);
  }

  lemma OperatorWeight(t: seq<Token>, i: nat, vars: map<seq<Byte>, int>)
    requires i < |t| && IsOperator(t[i])
    ensures Weights(t, vars) == Times(Weights(t[..i], vars), Weights(t[i + 1..], vars))
    ensures Weights(t[..i], vars) <= Weights(t, vars) && Weights(t[i + 1..], vars) <= Weights(t, vars)
  {
    hide Times, Weights;
    WeightsAt(t, i, vars);
    TimesGrows(Weights(t[..i], vars), Weights(t[i + 1..], vars));
    TimesOne(Weights(t[..i], vars));
  }

  lemma LeafWeight(t: seq<Token>, x: Token, vars: map<seq<Byte>, int>)
    requires x in t
    ensures Weight(x, vars) <= Weights(t, vars)
  {
    hide Times, Weight, Weights;
    var i :| 0 <= i < |t| && t[i] == x;
    WeightsAt(t, i, vars);
    var before := Times(Weights(t[..i], vars), Weight(x, vars));
    TimesGrows(Weights(t[..i], vars), Weight(x, vars));
    TimesGrows(before, Weights(t[i + 1..], vars));
  }

  lemma ResultBound(op: Token, a: int, b: int, wa: nat, wb: nat)
    requires IsOperator(op) && Abs(a) < wa && Abs(b) < wb && (op == Slash ==> b != 0)
    ensures Abs(Result(op, a, b)) < Times(wa, wb)
  {
    hide TruncDiv;
    if op == Slash { TimesGrows(wa, wb); }
    match op
    case Star => ProductBound(a, b, wa, wb);
    case Slash => TruncDivBound(a, b);
    case _ => SumBound(wa, wb);
  }

  lemma SumBound(a: nat, b: nat)
    requires a > 0 && b > 0
    ensures a + b <= a * b + 1
  {
    if a > 1 { TimesGrows(a - 1, b); }
    OneLess(a, b);
  }

  lemma OneLess(a: nat, b: nat)
    requires a > 0
    ensures a * b == (a - 1) * b + b
  {
  }

  lemma ProductBound(a: int, b: int, wa: nat, wb: nat)
    requires Abs(a) < wa && Abs(b) < wb
    ensures Abs(a * b) < wa * wb
  {
    var x, y := Abs(a), Abs(b);
    AbsTimes(a, b);
    MulGap(wa, y, wb);
    MulGap(y, x, wa);
    Swapped(x, y);
    Swapped(y, wa);
  }

  lemma Swapped(x: nat, y: nat)
    ensures x * y == y * x
  {
  }

  lemma AbsTimes(a: int, b: int)
    ensures Abs(a * b) == Abs(a) * Abs(b)
  {
    NegTimes(a, b);
    NegTimes(a, -b);
    SignOf(Abs(a), Abs(b));
  }

  lemma SignOf(x: nat, y: nat)
    ensures x * y >= 0
  {
  }

  lemma TruncDivBound(a: int, b: int)
    requires b != 0
    ensures Abs(TruncDiv(a, b)) <= Abs(a)
  {
    QuotientBound(Abs(a), Abs(b));
  }

  lemma QuotientBound(a: nat, b: nat)
    requires b > 0
    ensures a / b <= a
  {
    var q := a / b;
    DivIs(a, b);
    if q > 0 { TimesGrows(q, b); }
  }

  lemma {:induction false} MadeBound(x: Expr, t: seq<Token>, vars: map<seq<Byte>, int>)
    requires Made(x, t) && Weights(t, vars) <= I64_MAX + 1
    ensures Plain(x, vars).Some? && Abs(Plain(x, vars).value) < Weights(t, vars)
    decreases x, 1
  {
    hide Times, Weights, Result, Plain, PlainOf, InRange, Abs;
    match x
    case Lit(n) => LeafBound(x, t, vars);
    case Ref(name) => LeafBound(x, t, vars);
    case Neg(y) =>
      var i :| 0 <= i < |t| && t[i] == Minus && Made(y, t[i + 1..]);
      OperatorWeight(t, i, vars);
      MadeBound(y, t[i + 1..], vars);
      NegBound(y, Weights(t, vars), vars);
    case Add(l, r) =>
      var i :| 0 <= i < |t| && t[i] == Plus && Made(l, t[..i]) && Made(r, t[i + 1..]);
      PairBound(x, l, r, t, i, vars);
    case Sub(l, r) =>
      var i :| 0 <= i < |t| && t[i] == Minus && Made(l, t[..i]) && Made(r, t[i + 1..]);
      PairBound(x, l, r, t, i, vars);
    case Mul(l, r) =>
      var i :| 0 <= i < |t| && t[i] == Star && Made(l, t[..i]) && Made(r, t[i + 1..]);
      PairBound(x, l, r, t, i, vars);
    case Div(l, r) =>
      var i :| 0 <= i < |t| && t[i] == Slash && Made(l, t[..i]) && Made(r, t[i + 1..]);
      PairBound(x, l, r, t, i, vars);
  }

  lemma LeafBound(x: Expr, t: seq<Token>, vars: map<seq<Byte>, int>)
    requires (x.Lit? || x.Ref?) && Made(x, t) && Weights(t, vars) <= I64_MAX + 1
    ensures Plain(x, vars).Some? && Abs(Plain(x, vars).value) < Weights(t, vars)
  {
    hide Weights;
    match x
    case Lit(n) => if n != 0 { LeafWeight(t, Num(n), vars); }
    case Ref(name) => LeafWeight(t, Ident(name), vars);
  }

  lemma NegBound(y: Expr, w: nat, vars: map<seq<Byte>, int>)
    requires Plain(y, vars).Some? && Abs(Plain(y, vars).value) < w <= I64_MAX + 1
    ensures Plain(Neg(y), vars).Some? && Abs(Plain(Neg(y), vars).value) < w
  {
    hide PlainOf;
  }

  lemma {:induction false} PairBound(x: Expr, l: Expr, r: Expr, t: seq<Token>, i: nat, vars: map<seq<Byte>, int>)
    requires i < |t| && IsOperator(t[i]) && x == Binary(t[i], l, r) && l < x && r < x
    requires Made(l, t[..i]) && Made(r, t[i + 1..]) && Weights(t, vars) <= I64_MAX + 1
    ensures Plain(x, vars).Some? && Abs(Plain(x, vars).value) < Weights(t, vars)
    decreases x, 0
  {
    hide Times, Weights, Result, Made;
    OperatorWeight(t, i, vars);
    MadeBound(l, t[..i], vars);
    MadeBound(r, t[i + 1..], vars);
    var a, b := Plain(l, vars).value, Plain(r, vars).value;
    PlainBinary(t[i], l, r, vars);
    if !(t[i] == Slash && b == 0) { ResultBound(t[i], a, b, Weights(t[..i], vars), Weights(t[i + 1..], vars)); }
  }

  // Small operands never panic, however they are put together.
  lemma SmallNeverPanics(ts: seq<Token>, vars: map<seq<Byte>, int>)
    requires Weights(ts, vars) <= I64_MAX + 1
    ensures Answer(ts, vars) != CalcPanic
  {
    hide Weights, Made, Plain, RunSum;
    if Answer(ts, vars) == CalcPanic {
      PanicMeans(ts, vars);
      var x :| Made(x, ts) && Plain(x, vars).None?;
      MadeBound(x, ts, vars);
    }
  }

  // ---------- what each error says about the tokens ----------

  predicate OpensOperand(t: Token) { IsOperator(t) || t == LParen }

  // An operand is looked for at pos.
  predicate OperandAt(ts: seq<Token>, pos: nat) {
    pos <= |ts| && (pos == 0 || OpensOperand(ts[pos - 1]))
  }

  predicate NoOperand(t: Token) { t in {Plus, Star, Slash, RParen} }

  // What an error noted in the run needs among the tokens.
  ghost predicate Cause(x: ScriptError, ts: seq<Token>, vars: map<seq<Byte>, int>) {
    match x
    case ExpectedValue => OperandAt(ts, |ts|)
    case UnexpectedToken => exists i :: 0 <= i < |ts| && OperandAt(ts, i) && NoOperand(ts[i])
    case UndefinedVariable => exists i :: 0 <= i < |ts| && ts[i].Ident? && ts[i].name !in vars
    case MissingParen => LParen in ts
    case DivisionByZero => Slash in ts
    case _ => false
  }

  ghost predicate Caused(r: Ran, e: Option<ScriptError>, ts: seq<Token>, vars: map<seq<Byte>, int>) {
    r.Ran? && r.error != e ==> r.error.Some? && Cause(r.error.value, ts, vars)
  }

  lemma {:induction false} AtomCaused(ts: seq<Token>, pos: nat, vars: map<seq<Byte>, int>, e: Option<ScriptError>)
    requires OperandAt(ts, pos)
    ensures Caused(RunAtom(ts, pos, vars, e), e, ts, vars)
    decreases |ts| - pos, 0
  {
    hide RunSum, InRange;
    if pos < |ts| {
      if ts[pos] == LParen { SumCaused(ts, pos + 1, vars, e); }
      if ts[pos] == Minus { AtomCaused(ts, pos + 1, vars, e); }
    }
  }

  lemma {:induction false} ProductCaused(ts: seq<Token>, pos: nat, vars: map<seq<Byte>, int>, e: Option<ScriptError>)
    requires OperandAt(ts, pos)
    ensures Caused(RunProduct(ts, pos, vars, e), e, ts, vars)
    decreases |ts| - pos, 1
  {
    hide RunAtom, RunProductRest, Cause;
    AtomCaused(ts, pos, vars, e);
    var r := RunAtom(ts, pos, vars, e);
    if r.Ran? { ProductRestCaused(ts, r.pos, r.value, vars, r.error); }
  }

  lemma {:induction false} ProductRestCaused(ts: seq<Token>, pos: nat, left: int, vars: map<seq<Byte>, int>,
                                             e: Option<ScriptError>)
    requires pos <= |ts|
    ensures Caused(RunProductRest(ts, pos, left, vars, e), e, ts, vars)
    decreases |ts| - pos, 0
  {
    hide RunAtom, InRange, Result;
    if pos < |ts| && (ts[pos] == Star || ts[pos] == Slash) {
      OutOfProduct(ts, pos, left, vars, e);
      AtomCaused(ts, pos + 1, vars, e);
      var r, op := RunAtom(ts, pos + 1, vars, e), ts[pos];
      if r.Ran? && !(op == Slash && r.value == 0) {
        ProductRestCaused(ts, r.pos, Result(op, left, r.value), vars, r.error);
      }
    }
  }

  lemma {:induction false} SumCaused(ts: seq<Token>, pos: nat, vars: map<seq<Byte>, int>, e: Option<ScriptError>)
    requires OperandAt(ts, pos)
    ensures Caused(RunSum(ts, pos, vars, e), e, ts, vars)
    decreases |ts| - pos, 2
  {
    hide RunProduct, RunSumRest, Cause;
    ProductCaused(ts, pos, vars, e);
    var r := RunProduct(ts, pos, vars, e);
    if r.Ran? { SumRestCaused(ts, r.pos, r.value, vars, r.error); }
  }

  lemma {:induction false} SumRestCaused(ts: seq<Token>, pos: nat, left: int, vars: map<seq<Byte>, int>,
                                         e: Option<ScriptError>)
    requires pos <= |ts|
    ensures Caused(RunSumRest(ts, pos, left, vars, e), e, ts, vars)
    decreases |ts| - pos, 0
  {
    hide RunProduct, InRange, Result, Cause;
    if pos < |ts| && (ts[pos] == Plus || ts[pos] == Minus) {
      OutOfSum(ts, pos, left, vars, e);
      ProductCaused(ts, pos + 1, vars, e);
      var r, op := RunProduct(ts, pos + 1, vars, e), ts[pos];
      if r.Ran? { SumRestCaused(ts, r.pos, Result(op, left, r.value), vars, r.error); }
    }
  }

  // A complete expression that has a value, and a token after it that cannot continue it.
  ghost predicate LeftOver(ts: seq<Token>, s: Sum, vars: map<seq<Byte>, int>) {
    && |SumTokens(s)| < |ts| && ts[..|SumTokens(s)|] == SumTokens(s) && !IsOperator(ts[|SumTokens(s)|])
    && Value(SumExpr(s), vars).Some?
  }

  // No error without its cause: the first two answers are given in exactly one case each.
  lemma ErrorMeans(ts: seq<Token>, vars: map<seq<Byte>, int>)
    ensures Answer(ts, vars) == CalcErr(EmptyExpression) <==> ts == []
    ensures Answer(ts, vars) == CalcErr(UnexpectedTokens) <==> exists s :: LeftOver(ts, s, vars)
    ensures forall x :: Answer(ts, vars) == CalcErr(x) && x != EmptyExpression && x != UnexpectedTokens ==>
              Cause(x, ts, vars)
  {
    hide RunSum, LeftOver;
    if ts != [] { SumCaused(ts, 0, vars, None); }
    if Answer(ts, vars) == CalcErr(UnexpectedTokens) { LeftOverFound(ts, vars); }
    if s :| LeftOver(ts, s, vars) { LeftOverAnswer(ts, s, vars); }
  }

  lemma LeftOverFound(ts: seq<Token>, vars: map<seq<Byte>, int>)
    requires ts != [] && Answer(ts, vars) == CalcErr(UnexpectedTokens)
    ensures exists s :: LeftOver(ts, s, vars)
  {
    hide RunSum, FateOf, Value, SumTokens;
    SumCaused(ts, 0, vars, None);
    SumReported(ts, 0, vars, None);
    var p := SumAt(ts, 0);
    SumSound(ts, 0);
    FateIsValue(SumExpr(p.tree), vars);
    assert ts[0..p.pos] == ts[..p.pos];
    StopsThere(ts);
    assert LeftOver(ts, p.tree, vars);
  }

  // Parsing stops at a token that cannot continue.
  lemma StopsThere(ts: seq<Token>)
    requires SumAt(ts, 0).Got? && SumAt(ts, 0).pos < |ts|
    ensures !IsOperator(ts[SumAt(ts, 0).pos])
  {
    hide ProductAt, SumRest;
    ProductStops(ts, 0);
    var p := ProductAt(ts, 0);
    SumRestStops(ts, p.pos, OneProduct(p.tree));
  }

  lemma {:induction false} ProductStops(ts: seq<Token>, pos: nat)
    ensures var r := ProductAt(ts, pos); r.Got? && r.pos < |ts| ==> ts[r.pos] != Star && ts[r.pos] != Slash
  {
    hide AtomAt;
    var a := AtomAt(ts, pos);
    if a.Got? { ProductRestStops(ts, a.pos, OneAtom(a.tree)); }
  }

  lemma {:induction false} ProductRestStops(ts: seq<Token>, pos: nat, p: Product)
    ensures var r := ProductRest(ts, pos, p); r.Got? && r.pos < |ts| ==> ts[r.pos] != Star && ts[r.pos] != Slash
    decreases |ts| - pos
  {
    hide AtomAt;
    if pos < |ts| && (ts[pos] == Star || ts[pos] == Slash) {
      var a := AtomAt(ts, pos + 1);
      if a.Got? { ProductRestStops(ts, a.pos, if ts[pos] == Star then Timesed(p, a.tree) else Divided(p, a.tree)); }
    }
  }

  lemma {:induction false} SumRestStops(ts: seq<Token>, pos: nat, s: Sum)
    requires pos < |ts| ==> ts[pos] != Star && ts[pos] != Slash
    ensures var r := SumRest(ts, pos, s); r.Got? && r.pos < |ts| ==> !IsOperator(ts[r.pos])
    decreases |ts| - pos
  {
    hide ProductAt;
    if pos < |ts| && (ts[pos] == Plus || ts[pos] == Minus) {
      ProductStops(ts, pos + 1);
      var p := ProductAt(ts, pos + 1);
      if p.Got? { SumRestStops(ts, p.pos, if ts[pos] == Plus then Plused(s, p.tree) else Minused(s, p.tree)); }
    }
  }

  // ---------- the run over a stretch of the grammar ----------

  function Noted(f: Fate, e: Option<ScriptError>): Option<ScriptError>
    requires f.Fine?
  {
    if f.named then e else Some(UndefinedVariable)
  }

  lemma AtomRuns(ts: seq<Token>, pos: nat, q: nat, a: Atom, vars: map<seq<Byte>, int>, e: Option<ScriptError>)
    requires Reads(ts, pos, q, AtomTokens(a))
    ensures pos <= |ts|
    ensures var f := FateOf(AtomExpr(a), vars);
            && (f.Fine? ==> RunAtom(ts, pos, vars, e) == Ran(f.value, q, Noted(f, e)))
            && (f.Overflowed? ==> RunAtom(ts, pos, vars, e).Panic?)
  {
    hide FateOf, AtomAt, RunAtom, AtomTokens;
    AtomComplete(ts, pos, q, a);
    AtomReported(ts, pos, vars, e);
  }

  // Having read a product, the run is in the loop of the products with its value in hand.
  lemma {:induction false} ProductRuns(ts: seq<Token>, pos: nat, q: nat, p: Product, vars: map<seq<Byte>, int>,
                                       e: Option<ScriptError>)
    requires Reads(ts, pos, q, ProductTokens(p))
    ensures pos <= q <= |ts|
    ensures var f := FateOf(ProductExpr(p), vars);
            && (f.Fine? ==> RunProduct(ts, pos, vars, e) == RunProductRest(ts, q, f.value, vars, Noted(f, e)))
            && (f.Overflowed? ==> RunProduct(ts, pos, vars, e).Panic?)
    decreases p, 1
  {
    hide RunAtom, RunProductRest;
    match p
    case OneAtom(a) => AtomRuns(ts, pos, q, a, vars, e);
    case Timesed(p', a) => ProductRunsOn(ts, pos, q, p', Star, a, vars, e);
    case Divided(p', a) => ProductRunsOn(ts, pos, q, p', Slash, a, vars, e);
  }

  lemma {:induction false} ProductRunsOn(ts: seq<Token>, pos: nat, q: nat, p: Product, op: Token, a: Atom,
                                         vars: map<seq<Byte>, int>, e: Option<ScriptError>)
    requires (op == Star || op == Slash) && Reads(ts, pos, q, ProductTokens(p) + [op] + AtomTokens(a))
    ensures pos <= q <= |ts|
    ensures var f := Combined(FateOf(ProductExpr(p), vars), op, FateOf(AtomExpr(a), vars));
            && (f.Fine? ==> RunProduct(ts, pos, vars, e) == RunProductRest(ts, q, f.value, vars, Noted(f, e)))
            && (f.Overflowed? ==> RunProduct(ts, pos, vars, e).Panic?)
    decreases if op == Star then Timesed(p, a) else Divided(p, a), 0
  {
    hide Reads, ProductTokens, AtomTokens, RunAtom, RunProduct, RunProductRest, FateOf, InRange, TruncDiv;
    var n, f := pos + |ProductTokens(p)|, FateOf(ProductExpr(p), vars);
    ReadsAround(ts, pos, q, ProductTokens(p), op, AtomTokens(a));
    ProductRuns(ts, pos, n, p, vars, e);
    if f.Fine? {
      AtomRuns(ts, n + 1, q, a, vars, Noted(f, e));
      OutOfProduct(ts, n, f.value, vars, Noted(f, e));
    }
  }

  // Having read a sum that no product continues, it is in the loop of the sums.
  lemma {:induction false} SumRuns(ts: seq<Token>, pos: nat, q: nat, s: Sum, vars: map<seq<Byte>, int>,
                                   e: Option<ScriptError>)
    requires Reads(ts, pos, q, SumTokens(s)) && (q == |ts| || (ts[q] != Star && ts[q] != Slash))
    ensures pos <= q <= |ts|
    ensures var f := FateOf(SumExpr(s), vars);
            && (f.Fine? ==> RunSum(ts, pos, vars, e) == RunSumRest(ts, q, f.value, vars, Noted(f, e)))
            && (f.Overflowed? ==> RunSum(ts, pos, vars, e).Panic?)
    decreases s, 1
  {
    hide RunProduct, RunSumRest;
    match s
    case OneProduct(p) =>
      ProductRuns(ts, pos, q, p, vars, e);
    case Plused(s', p) => SumRunsOn(ts, pos, q, s', Plus, p, vars, e);
    case Minused(s', p) => SumRunsOn(ts, pos, q, s', Minus, p, vars, e);
  }

  lemma {:induction false} SumRunsOn(ts: seq<Token>, pos: nat, q: nat, s: Sum, op: Token, p: Product,
                                     vars: map<seq<Byte>, int>, e: Option<ScriptError>)
    requires (op == Plus || op == Minus) && Reads(ts, pos, q, SumTokens(s) + [op] + ProductTokens(p))
    requires q == |ts| || (ts[q] != Star && ts[q] != Slash)
    ensures pos <= q <= |ts|
    ensures var f := Combined(FateOf(SumExpr(s), vars), op, FateOf(ProductExpr(p), vars));
            && (f.Fine? ==> RunSum(ts, pos, vars, e) == RunSumRest(ts, q, f.value, vars, Noted(f, e)))
            && (f.Overflowed? ==> RunSum(ts, pos, vars, e).Panic?)
    decreases if op == Plus then Plused(s, p) else Minused(s, p), 0
  {
    hide Reads, SumTokens, ProductTokens, RunProduct, RunSum, RunSumRest, FateOf, InRange;
    var n, f := pos + |SumTokens(s)|, FateOf(SumExpr(s), vars);
    ReadsAround(ts, pos, q, SumTokens(s), op, ProductTokens(p));
    SumRuns(ts, pos, n, s, vars, e);
    if f.Fine? {
      ProductRuns(ts, n + 1, q, p, vars, Noted(f, e));
      OutOfSum(ts, n, f.value, vars, Noted(f, e));
    }
  }

  lemma LeftOverAnswer(ts: seq<Token>, s: Sum, vars: map<seq<Byte>, int>)
    requires LeftOver(ts, s, vars)
    ensures Answer(ts, vars) == CalcErr(UnexpectedTokens)
  {
    hide FateOf, Value, SumTokens, RunSum;
    var q := |SumTokens(s)|;
    assert ts[0..q] == SumTokens(s);
    FateIsValue(SumExpr(s), vars);
    SumRuns(ts, 0, q, s, vars, None);
  }

  // ---------- the answer for each malformed shape ----------

  // Variables hold 64-bit values.
  ghost predicate Bounded(vars: map<seq<Byte>, int>) { forall name | name in vars :: InRange(vars[name]) }

  lemma {:induction false} FateInRange(e: Expr, vars: map<seq<Byte>, int>)
    requires Bounded(vars)
    ensures FateOf(e, vars).Fine? ==> InRange(FateOf(e, vars).value)
  {
    hide InRange, TruncDiv, Bounded;
    match e
    case Ref(name) => NameInRange(name, vars);
    case _ =>
  }

  lemma NameInRange(name: seq<Byte>, vars: map<seq<Byte>, int>)
    requires Bounded(vars)
    ensures name in vars ==> InRange(vars[name])
    ensures InRange(0)
  {
  }

  // What evaluation meets in s up to an operator after it: a product goes on with the last product of s.
  ghost function Met(s: Sum, op: Token, vars: map<seq<Byte>, int>): Fate {
    if op == Plus || op == Minus then FateOf(SumExpr(s), vars)
    else
      match s
      case OneProduct(p) => FateOf(ProductExpr(p), vars)
      case Plused(t, p) => Later(FateOf(SumExpr(t), vars), FateOf(ProductExpr(p), vars))
      case Minused(t, p) => Later(FateOf(SumExpr(t), vars), FateOf(ProductExpr(p), vars))
  }

  ghost function Later(f: Fate, g: Fate): Fate { if f.Fine? then g else f }

  // The expression ends before position q.
  ghost predicate EndsAt(ts: seq<Token>, q: nat) { q == |ts| || (q < |ts| && !IsOperator(ts[q])) }

  // The answer is the panic if evaluation overflowed before the fault, and otherwise that of the fault.
  ghost predicate Answers(f: Fate, a: CalcResult, x: ScriptError) {
    (f.Fine? ==> a == CalcErr(x)) && (f.Overflowed? ==> a == CalcPanic)
  }

  // From position q on, what is read makes the product in hand zero and notes error x, up to q2.
  ghost predicate ZeroTail(ts: seq<Token>, q: nat, q2: nat, x: ScriptError, vars: map<seq<Byte>, int>) {
    && q < q2 <= |ts| && (q2 < |ts| ==> ts[q2] != Plus && ts[q2] != Minus)
    && forall left, e :: RunProductRest(ts, q, left, vars, e) == Ran(0, q2, Some(x))
  }

  // The product read at pos is zero, ends at q2 and notes error x.
  ghost predicate ZeroProduct(ts: seq<Token>, pos: nat, q2: nat, x: ScriptError, vars: map<seq<Byte>, int>)
    requires pos <= |ts|
  {
    forall e :: RunProduct(ts, pos, vars, e) == Ran(0, q2, Some(x))
  }

  // A fault in a product that goes on after s.
  lemma FaultInProduct(ts: seq<Token>, q: nat, q2: nat, s: Sum, x: ScriptError, vars: map<seq<Byte>, int>)
    requires Bounded(vars) && Reads(ts, 0, q, SumTokens(s)) && ZeroTail(ts, q, q2, x, vars)
    ensures Answers(Met(s, Star, vars), Answer(ts, vars), x)
  {
    match s
    case OneProduct(p) => FaultInFirst(ts, q, q2, p, x, vars);
    case Plused(t, p) => FaultInTerm(ts, q, q2, t, Plus, p, x, vars);
    case Minused(t, p) => FaultInTerm(ts, q, q2, t, Minus, p, x, vars);
  }

  lemma FaultInFirst(ts: seq<Token>, q: nat, q2: nat, p: Product, x: ScriptError, vars: map<seq<Byte>, int>)
    requires Reads(ts, 0, q, ProductTokens(p)) && ZeroTail(ts, q, q2, x, vars)
    ensures Answers(FateOf(ProductExpr(p), vars), Answer(ts, vars), x)
  {
    hide FateOf, RunProductRest, RunProduct, Reads, InRange, ProductTokens;
    var f := FateOf(ProductExpr(p), vars);
    ProductRuns(ts, 0, q, p, vars, None);
    if f.Fine? {
      assert RunProduct(ts, 0, vars, None) == Ran(0, q2, Some(x));
      assert RunSumRest(ts, q2, 0, vars, Some(x)) == Ran(0, q2, Some(x));
    }
  }

  lemma FaultInTerm(ts: seq<Token>, q: nat, q2: nat, s: Sum, op: Token, p: Product, x: ScriptError,
                    vars: map<seq<Byte>, int>)
    requires Bounded(vars) && (op == Plus || op == Minus) && ZeroTail(ts, q, q2, x, vars)
    requires Reads(ts, 0, q, SumTokens(s) + [op] + ProductTokens(p))
    ensures Answers(Later(FateOf(SumExpr(s), vars), FateOf(ProductExpr(p), vars)), Answer(ts, vars), x)
  {
    hide FateOf, RunProductRest, RunProduct, RunSum, RunSumRest, Reads, SumTokens, ProductTokens, InRange, Bounded;
    var n, f, g := |SumTokens(s)|, FateOf(SumExpr(s), vars), FateOf(ProductExpr(p), vars);
    ReadsAround(ts, 0, q, SumTokens(s), op, ProductTokens(p));
    SumRuns(ts, 0, n, s, vars, None);
    if f.Fine? {
      ProductRuns(ts, n + 1, q, p, vars, Noted(f, None));
      FateInRange(SumExpr(s), vars);
      if g.Fine? { SignedZero(ts, n, f.value, q2, x, vars, Noted(f, None)); }
      if g.Overflowed? { OutOfSum(ts, n, f.value, vars, Noted(f, None)); }
    }
  }

  lemma SignedZero(ts: seq<Token>, pos: nat, left: int, q2: nat, x: ScriptError, vars: map<seq<Byte>, int>,
                   e: Option<ScriptError>)
    requires pos < |ts| && (ts[pos] == Plus || ts[pos] == Minus) && InRange(left)
    requires q2 <= |ts| && (q2 < |ts| ==> ts[q2] != Plus && ts[q2] != Minus)
    requires RunProduct(ts, pos + 1, vars, e) == Ran(0, q2, Some(x))
    ensures RunSumRest(ts, pos, left, vars, e) == Ran(left, q2, Some(x))
  {
    hide RunProduct, InRange;
  }

  // A fault in a product of its own after s and a sign.
  lemma FaultAfterSign(ts: seq<Token>, q: nat, q2: nat, s: Sum, x: ScriptError, vars: map<seq<Byte>, int>)
    requires Bounded(vars) && Reads(ts, 0, q, SumTokens(s)) && q < |ts| && (ts[q] == Plus || ts[q] == Minus)
    requires q < q2 <= |ts| && (q2 < |ts| ==> ts[q2] != Plus && ts[q2] != Minus)
    requires ZeroProduct(ts, q + 1, q2, x, vars)
    ensures Answers(FateOf(SumExpr(s), vars), Answer(ts, vars), x)
  {
    hide FateOf, RunProduct, RunSum, RunSumRest, Reads, SumTokens, InRange, Bounded;
    var f := FateOf(SumExpr(s), vars);
    SumRuns(ts, 0, q, s, vars, None);
    FateInRange(SumExpr(s), vars);
    if f.Fine? { SignedZero(ts, q, f.value, q2, x, vars, Noted(f, None)); }
  }

  // No operand where one is looked for.
  function Lacking(rest: seq<Token>): ScriptError { if rest == [] then ExpectedValue else UnexpectedToken }

  lemma NoAtom(ts: seq<Token>, pos: nat, vars: map<seq<Byte>, int>, e: Option<ScriptError>)
    requires pos <= |ts| && (pos < |ts| ==> NoOperand(ts[pos]))
    ensures RunAtom(ts, pos, vars, e) == Ran(0, pos, Some(Lacking(ts[pos..])))
  {
  }

  // After an operator there is nothing, or a closing parenthesis.
  lemma OperandMissing(s: Sum, op: Token, rest: seq<Token>, vars: map<seq<Byte>, int>)
    requires Bounded(vars) && IsOperator(op) && (rest != [] ==> rest[0] == RParen)
    ensures Answers(Met(s, op, vars), Answer(SumTokens(s) + [op] + rest, vars),
                    if op == Slash then DivisionByZero else Lacking(rest))
  {
    hide SumTokens, Bounded, RunAtom, RunSum, Met, FateOf, InRange, Reads;
    var ts, q := SumTokens(s) + [op] + rest, |SumTokens(s)|;
    Stretch(SumTokens(s), [op] + rest);
    assert ts == SumTokens(s) + ([op] + rest) && ts[q] == op && ts[q + 1..] == rest;
    var n := q + 1;
    forall e ensures RunAtom(ts, n, vars, e) == Ran(0, n, Some(Lacking(rest))) { NoAtom(ts, n, vars, e); }
    ZeroInRange();
    if op == Plus || op == Minus {
      assert ZeroProduct(ts, n, n, Lacking(rest), vars) by {
        forall e ensures RunProduct(ts, n, vars, e) == Ran(0, n, Some(Lacking(rest))) {
          NoAtom(ts, n, vars, e);
        }
      }
      FaultAfterSign(ts, q, n, s, Lacking(rest), vars);
      SameMet(s, op, vars);
    } else {
      forall left, e
        ensures RunProductRest(ts, q, left, vars, e)
                == Ran(0, q + 1, Some(if op == Slash then DivisionByZero else Lacking(rest)))
      {
        OutOfProduct(ts, q, left, vars, e);
      }
      FaultInProduct(ts, q, q + 1, s, if op == Slash then DivisionByZero else Lacking(rest), vars);
      SameMet(s, op, vars);
    }
  }

  lemma SameMet(s: Sum, op: Token, vars: map<seq<Byte>, int>)
    ensures op == Plus || op == Minus ==> Met(s, op, vars) == FateOf(SumExpr(s), vars)
    ensures op == Star || op == Slash ==> Met(s, op, vars) == Met(s, Star, vars)
  {
  }

  lemma ZeroInRange()
    ensures InRange(0)
  {
  }

  lemma Stretch(t: seq<Token>, rest: seq<Token>)
    ensures Reads(t + rest, 0, |t|, t)
  {
    assert (t + rest)[0..|t|] == t;
  }

  // A division by zero, and after it nothing or anything that is no sign.
  lemma LastDivisionByZero(s: Sum, a: Atom, rest: seq<Token>, vars: map<seq<Byte>, int>)
    requires Bounded(vars) && (rest != [] ==> rest[0] != Plus && rest[0] != Minus)
    requires FateOf(AtomExpr(a), vars).Fine? && FateOf(AtomExpr(a), vars).value == 0
    ensures Answers(Met(s, Slash, vars), Answer(SumTokens(s) + [Slash] + AtomTokens(a) + rest, vars), DivisionByZero)
  {
    hide SumTokens, AtomTokens, Bounded, RunAtom, RunSum, Met, FateOf, InRange, Reads;
    var ts, q := SumTokens(s) + [Slash] + AtomTokens(a) + rest, |SumTokens(s)|;
    var q2 := q + 1 + |AtomTokens(a)|;
    Stretch(SumTokens(s), [Slash] + AtomTokens(a) + rest);
    assert ts == SumTokens(s) + ([Slash] + AtomTokens(a) + rest) && ts[q] == Slash;
    StretchAt(SumTokens(s) + [Slash], AtomTokens(a), rest);
    forall left, e ensures RunProductRest(ts, q, left, vars, e) == Ran(0, q2, Some(DivisionByZero)) {
      AtomRuns(ts, q + 1, q2, a, vars, e);
      OutOfProduct(ts, q, left, vars, e);
    }
    FaultInProduct(ts, q, q2, s, DivisionByZero, vars);
    SameMet(s, Slash, vars);
  }

  lemma StretchAt(before: seq<Token>, t: seq<Token>, rest: seq<Token>)
    ensures Reads(before + t + rest, |before|, |before| + |t|, t)
  {
  }

  function Opens(n: nat): seq<Token> { seq(n, _ => LParen) }

  // Parentheses that are opened and not closed.
  lemma Unclosed(n: nat, s: Sum, rest: seq<Token>, vars: map<seq<Byte>, int>)
    requires n > 0 && (rest != [] ==> !IsOperator(rest[0]) && rest[0] != RParen)
    ensures Answers(FateOf(SumExpr(s), vars), Answer(Opens(n) + SumTokens(s) + rest, vars), MissingParen)
  {
    hide SumTokens, RunSum, FateOf, Reads;
    var ts := Opens(n) + SumTokens(s) + rest;
    StretchAt(Opens(n), SumTokens(s), rest);
    UnclosedRun(ts, 0, n, n + |SumTokens(s)|, s, vars);
  }

  lemma {:induction false} UnclosedRun(ts: seq<Token>, i: nat, n: nat, q: nat, s: Sum, vars: map<seq<Byte>, int>)
    requires i < n < |ts| && (forall j | i <= j < n :: ts[j] == LParen) && Reads(ts, n, q, SumTokens(s))
    requires EndsAt(ts, q) && (q < |ts| ==> ts[q] != RParen)
    ensures var f := FateOf(SumExpr(s), vars);
            && (f.Fine? ==> RunSum(ts, i, vars, None) == Ran(f.value, q, Some(MissingParen)))
            && (f.Overflowed? ==> RunSum(ts, i, vars, None).Panic?)
    decreases n - i
  {
    hide SumTokens, FateOf, Reads;
    if i + 1 < n {
      UnclosedRun(ts, i + 1, n, q, s, vars);
    } else {
      SumRuns(ts, n, q, s, vars, None);
    }
    OpenedRun(ts, i, vars);
  }

  lemma OpenedRun(ts: seq<Token>, i: nat, vars: map<seq<Byte>, int>)
    requires i < |ts| && ts[i] == LParen
    ensures var r := RunSum(ts, i + 1, vars, None);
            && (r.Panic? ==> RunSum(ts, i, vars, None).Panic?)
            && (r.Ran? && EndsAt(ts, r.pos) && (r.pos < |ts| ==> ts[r.pos] != RParen) ==>
                  RunSum(ts, i, vars, None) == Ran(r.value, r.pos, Some(MissingParen)))
  {
    hide RunAtom, InRange, TruncDiv;
    var r := RunSum(ts, i + 1, vars, None);
    OpenedAtom(ts, i, vars);
    if r.Ran? && EndsAt(ts, r.pos) && (r.pos < |ts| ==> ts[r.pos] != RParen) {
      assert RunProduct(ts, i, vars, None) == Ran(r.value, r.pos, Some(MissingParen));
    }
  }

  lemma OpenedAtom(ts: seq<Token>, i: nat, vars: map<seq<Byte>, int>)
    requires i < |ts| && ts[i] == LParen
    ensures var r := RunSum(ts, i + 1, vars, None);
            RunAtom(ts, i, vars, None)
            == if r.Panic? then Panic
               else if r.pos < |ts| && ts[r.pos] == RParen then Ran(r.value, r.pos + 1, r.error)
               else Ran(r.value, r.pos, Some(MissingParen))
  {
    hide RunSum;
  }

  // `*` or `/` where an operand is looked for: it is as if a zero stood before it.
  function Misplaced(op: Token, g: Fate): ScriptError
    requires g.Fine?
  {
    if op == Slash && g.value == 0 then DivisionByZero else Noted(g, Some(UnexpectedToken)).value
  }

  lemma MisplacedRun(ts: seq<Token>, pos: nat, q: nat, a: Atom, vars: map<seq<Byte>, int>, left: int,
                     e: Option<ScriptError>)
    requires pos < |ts| && (ts[pos] == Star || ts[pos] == Slash) && Reads(ts, pos + 1, q, AtomTokens(a))
    requires EndsAt(ts, q) && FateOf(AtomExpr(a), vars).Fine?
    ensures pos < q
    ensures var end := Ran(0, q, Some(Misplaced(ts[pos], FateOf(AtomExpr(a), vars))));
            && RunProduct(ts, pos, vars, e) == end
            && (pos > 0 && ts[pos - 1] == Star ==> RunProductRest(ts, pos - 1, left, vars, e) == end)
  {
    hide FateOf, RunAtom, AtomTokens, InRange;
    var g, x := FateOf(AtomExpr(a), vars), Some(UnexpectedToken);
    ZeroInRange();
    AtomRuns(ts, pos + 1, q, a, vars, x);
    OutOfProduct(ts, pos, 0, vars, x);
    NoAtom(ts, pos, vars, e);
    assert RunProductRest(ts, pos, 0, vars, x) == Ran(0, q, Some(Misplaced(ts[pos], g)));
    if pos > 0 && ts[pos - 1] == Star { OutOfProduct(ts, pos - 1, left, vars, e); }
  }

  // At the start, and after another operator.
  lemma OperatorMisplaced(s: Sum, op: Token, bad: Token, a: Atom, rest: seq<Token>, vars: map<seq<Byte>, int>)
    requires Bounded(vars) && op in {Plus, Minus, Star} && (bad == Star || bad == Slash)
    requires (rest != [] ==> !IsOperator(rest[0])) && FateOf(AtomExpr(a), vars).Fine?
    ensures var x := Misplaced(bad, FateOf(AtomExpr(a), vars));
            && Answer([bad] + AtomTokens(a) + rest, vars) == CalcErr(x)
            && Answers(Met(s, op, vars), Answer(SumTokens(s) + [op, bad] + AtomTokens(a) + rest, vars), x)
  {
    hide SumTokens, AtomTokens, FateOf, RunAtom, RunProduct, RunProductRest, RunSum, Reads, Bounded, InRange, Met,
         Misplaced;
    MisplacedFirst(bad, a, rest, vars);
    var ts, q := SumTokens(s) + [op, bad] + AtomTokens(a) + rest, |SumTokens(s)|;
    var q2, x := q + 2 + |AtomTokens(a)|, Misplaced(bad, FateOf(AtomExpr(a), vars));
    Stretch(SumTokens(s), [op, bad] + AtomTokens(a) + rest);
    assert ts == SumTokens(s) + ([op, bad] + AtomTokens(a) + rest) && ts[q] == op && ts[q + 1] == bad;
    StretchAt(SumTokens(s) + [op, bad], AtomTokens(a), rest);
    SameMet(s, op, vars);
    if op == Star {
      forall left, e ensures RunProductRest(ts, q, left, vars, e) == Ran(0, q2, Some(x)) {
        MisplacedRun(ts, q + 1, q2, a, vars, left, e);
      }
      FaultInProduct(ts, q, q2, s, x, vars);
    } else {
      var n := q + 1;
      forall e ensures RunProduct(ts, n, vars, e) == Ran(0, q2, Some(x)) {
        MisplacedRun(ts, n, q2, a, vars, 0, e);
      }
      assert ZeroProduct(ts, n, q2, x, vars);
      FaultAfterSign(ts, q, q2, s, x, vars);
    }
  }

  lemma MisplacedFirst(bad: Token, a: Atom, rest: seq<Token>, vars: map<seq<Byte>, int>)
    requires (bad == Star || bad == Slash) && (rest != [] ==> !IsOperator(rest[0])) && FateOf(AtomExpr(a), vars).Fine?
    ensures Answer([bad] + AtomTokens(a) + rest, vars) == CalcErr(Misplaced(bad, FateOf(AtomExpr(a), vars)))
  {
    hide AtomTokens, FateOf, RunAtom, RunProduct, InRange, Misplaced, Reads;
    var ts := [bad] + AtomTokens(a) + rest;
    StretchAt([bad], AtomTokens(a), rest);
    var q, x := 1 + |AtomTokens(a)|, Some(Misplaced(bad, FateOf(AtomExpr(a), vars)));
    MisplacedRun(ts, 0, q, a, vars, 0, None);
    assert RunSumRest(ts, q, 0, vars, x) == Ran(0, q, x);
  }

  // `+` where an operand is looked for, likewise: after it the sum goes on from what is in hand.
  lemma PlusMisplaced(s: Sum, op: Token, p: Product, rest: seq<Token>, vars: map<seq<Byte>, int>)
    requires Bounded(vars) && (op == Plus || op == Minus) && (rest != [] ==> !IsOperator(rest[0]))
    requires FateOf(ProductExpr(p), vars).Fine?
    ensures var f, g := FateOf(SumExpr(s), vars), FateOf(ProductExpr(p), vars);
            Answers(if f.Fine? && !InRange(f.value + g.value) then Overflowed else f,
                    Answer(SumTokens(s) + [op, Plus] + ProductTokens(p) + rest, vars),
                    Noted(g, Some(UnexpectedToken)).value)
  {
    hide SumTokens, ProductTokens, FateOf, RunProduct, RunProductRest, RunSum, RunSumRest, Reads, Bounded, InRange;
    var ts, q := SumTokens(s) + [op, Plus] + ProductTokens(p) + rest, |SumTokens(s)|;
    var q2, f, g := q + 2 + |ProductTokens(p)|, FateOf(SumExpr(s), vars), FateOf(ProductExpr(p), vars);
    Stretch(SumTokens(s), [op, Plus] + ProductTokens(p) + rest);
    assert ts == SumTokens(s) + ([op, Plus] + ProductTokens(p) + rest) && ts[q] == op && ts[q + 1] == Plus;
    StretchAt(SumTokens(s) + [op, Plus], ProductTokens(p), rest);
    SumRuns(ts, 0, q, s, vars, None);
    if f.Fine? {
      FateInRange(SumExpr(s), vars);
      OutOfSum(ts, q, f.value, vars, Noted(f, None));
      NoProduct(ts, q + 1, vars, Noted(f, None));
      LastTerm(ts, q + 1, q2, f.value, p, vars, Some(UnexpectedToken));
    }
  }

  lemma LastTerm(ts: seq<Token>, pos: nat, q: nat, left: int, p: Product, vars: map<seq<Byte>, int>,
                 e: Option<ScriptError>)
    requires pos < |ts| && ts[pos] == Plus && Reads(ts, pos + 1, q, ProductTokens(p)) && EndsAt(ts, q)
    ensures var g := FateOf(ProductExpr(p), vars);
            g.Fine? ==> RunSumRest(ts, pos, left, vars, e)
                        == if InRange(left + g.value) then Ran(left + g.value, q, Noted(g, e)) else Panic
  {
    hide ProductTokens, FateOf, RunProduct, Reads, InRange;
    ProductRuns(ts, pos + 1, q, p, vars, e);
    OutOfSum(ts, pos, left, vars, e);
  }

  lemma NoProduct(ts: seq<Token>, pos: nat, vars: map<seq<Byte>, int>, e: Option<ScriptError>)
    requires pos < |ts| && ts[pos] == Plus
    ensures RunProduct(ts, pos, vars, e) == Ran(0, pos, Some(UnexpectedToken))
  {
    NoAtom(ts, pos, vars, e);
  }

  // A closing parenthesis, or nothing but an opening or negating one, at the start.
  lemma ClosedFirst(rest: seq<Token>, vars: map<seq<Byte>, int>)
    ensures Answer([RParen] + rest, vars) == CalcErr(UnexpectedToken)
    ensures Answer([Minus], vars) == CalcErr(ExpectedValue) && Answer([LParen], vars) == CalcErr(MissingParen)
  {
    var ts, x := [RParen] + rest, Some(UnexpectedToken);
    NoAtom(ts, 0, vars, None);
    assert RunProduct(ts, 0, vars, None) == Ran(0, 0, x);
    assert RunSum(ts, 0, vars, None) == Ran(0, 0, x);
  }
}
