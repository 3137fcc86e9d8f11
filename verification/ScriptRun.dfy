// What the evaluator does on any list of tokens, as functions: also past a fault,
// where it goes on reading with an error noted.  On an expression of the grammar
// this comes to the expression's fate.
module ScriptRun {
  import opened Wrappers
  import opened Bits
  import opened ScriptGrammar

  datatype ScriptError =
    | EmptyExpression | UnexpectedTokens | ExpectedValue | UndefinedVariable
    | MissingParen | UnexpectedToken | DivisionByZero

  // The end of a call of a parser: a panic, or a value, the position after it, and the error noted last.
  datatype Ran = Panic | Ran(value: int, pos: nat, error: Option<ScriptError>)

  function RunAtom(ts: seq<Token>, pos: nat, vars: map<seq<Byte>, int>, e: Option<ScriptError>): (r: Ran)
    requires pos <= |ts|
    ensures r.Ran? ==> pos <= r.pos <= |ts|
    decreases |ts| - pos, 0
  {
    if pos == |ts| then Ran(0, pos, Some(ExpectedValue))
    else
      match ts[pos]
      case Num(n) => if InRange(n) then Ran(n, pos + 1, e) else Panic
      case Ident(name) => if name in vars then Ran(vars[name], pos + 1, e) else Ran(0, pos + 1, Some(UndefinedVariable))
      case LParen =>
        (match RunSum(ts, pos + 1, vars, e)
         case Panic => Panic
         case Ran(v, q, e1) => if q < |ts| && ts[q] == RParen then Ran(v, q + 1, e1) else Ran(v, q, Some(MissingParen)))
      case Minus =>
        (match RunAtom(ts, pos + 1, vars, e)
         case Panic => Panic
         case Ran(v, q, e1) => if InRange(-v) then Ran(-v, q, e1) else Panic)
      case _ => Ran(0, pos, Some(UnexpectedToken))
  }

  function RunProduct(ts: seq<Token>, pos: nat, vars: map<seq<Byte>, int>, e: Option<ScriptError>): (r: Ran)
    requires pos <= |ts|
    ensures r.Ran? ==> pos <= r.pos <= |ts|
    decreases |ts| - pos, 1
  {
    match RunAtom(ts, pos, vars, e)
    case Panic => Panic
    case Ran(v, q, e1) => RunProductRest(ts, q, v, vars, e1)
  }

  // The loop of the products, `left` in hand; a zero divisor ends it.
  function RunProductRest(ts: seq<Token>, pos: nat, left: int, vars: map<seq<Byte>, int>,
                          e: Option<ScriptError>): (r: Ran)
    requires pos <= |ts|
    ensures r.Ran? ==> pos <= r.pos <= |ts|
    decreases |ts| - pos, 0
  {
    if pos < |ts| && (ts[pos] == Star || ts[pos] == Slash) then
      match RunAtom(ts, pos + 1, vars, e)
      case Panic => Panic
      case Ran(v, q, e1) =>
        if ts[pos] == Slash && v == 0 then Ran(0, q, Some(DivisionByZero))
        else
          var x := if ts[pos] == Star then left * v else TruncDiv(left, v);
          if InRange(x) then RunProductRest(ts, q, x, vars, e1) else Panic
    else Ran(left, pos, e)
  }

  function RunSum(ts: seq<Token>, pos: nat, vars: map<seq<Byte>, int>, e: Option<ScriptError>): (r: Ran)
    requires pos <= |ts|
    ensures r.Ran? ==> pos <= r.pos <= |ts|
    decreases |ts| - pos, 2
  {
    match RunProduct(ts, pos, vars, e)
    case Panic => Panic
    case Ran(v, q, e1) => RunSumRest(ts, q, v, vars, e1)
  }

  function RunSumRest(ts: seq<Token>, pos: nat, left: int, vars: map<seq<Byte>, int>, e: Option<ScriptError>): (r: Ran)
    requires pos <= |ts|
    ensures r.Ran? ==> pos <= r.pos <= |ts|
    decreases |ts| - pos, 0
  {
    if pos < |ts| && (ts[pos] == Plus || ts[pos] == Minus) then
      match RunProduct(ts, pos + 1, vars, e)
      case Panic => Panic
      case Ran(v, q, e1) =>
        var x := if ts[pos] == Plus then left + v else left - v;
        if InRange(x) then RunSumRest(ts, q, x, vars, e1) else Panic
    else Ran(left, pos, e)
  }

  // ---------- the fate of what is parsed ----------

  ghost function AtomFate(r: Parsed<Atom>, vars: map<seq<Byte>, int>): Option<Fate> {
    if r.Got? then Some(FateOf(AtomExpr(r.tree), vars)) else None
  }

  ghost function ProductFate(r: Parsed<Product>, vars: map<seq<Byte>, int>): Option<Fate> {
    if r.Got? then Some(FateOf(ProductExpr(r.tree), vars)) else None
  }

  ghost function SumFate(r: Parsed<Sum>, vars: map<seq<Byte>, int>): Option<Fate> {
    if r.Got? then Some(FateOf(SumExpr(r.tree), vars)) else None
  }

  // Not an expression here, or one that divides by zero: from here on the parser is astray.
  ghost predicate Astray(f: Option<Fate>) { f.None? || f.value.ZeroDivisor? }

  // A fault in what has been read is the fault of the whole, if the whole can be read.
  lemma {:induction false} ProductFaulty(ts: seq<Token>, pos: nat, p: Product, vars: map<seq<Byte>, int>)
    requires !FateOf(ProductExpr(p), vars).Fine?
    ensures var f := ProductFate(ProductRest(ts, pos, p), vars); f.Some? ==> f.value == FateOf(ProductExpr(p), vars)
    decreases |ts| - pos
  {
    if pos < |ts| && (ts[pos] == Star || ts[pos] == Slash) {
      var a := AtomAt(ts, pos + 1);
      if a.Got? {
        ProductFaulty(ts, a.pos, if ts[pos] == Star then Timesed(p, a.tree) else Divided(p, a.tree), vars);
      }
    }
  }

  lemma {:induction false} SumFaulty(ts: seq<Token>, pos: nat, s: Sum, vars: map<seq<Byte>, int>)
    requires !FateOf(SumExpr(s), vars).Fine?
    ensures var f := SumFate(SumRest(ts, pos, s), vars); f.Some? ==> f.value == FateOf(SumExpr(s), vars)
    decreases |ts| - pos
  {
    if pos < |ts| && (ts[pos] == Plus || ts[pos] == Minus) {
      var p := ProductAt(ts, pos + 1);
      if p.Got? {
        SumFaulty(ts, p.pos, if ts[pos] == Plus then Plused(s, p.tree) else Minused(s, p.tree), vars);
      }
    }
  }

  ghost function End<T>(p: Parsed<T>): nat { if p.Got? then p.pos else 0 }

  // What a call of one of the three parsers comes to.  With a tree here that evaluates, its value past
  // the tree, and an error only for an undefined name; with one that overflows, the panic; and astray,
  // at least an error.
  ghost predicate Reported(f: Option<Fate>, end: nat, e0: Option<ScriptError>, r: Ran) {
    && (f.Some? && f.value.Fine? ==>
          r == Ran(f.value.value, end, if f.value.named then e0 else Some(UndefinedVariable)))
    && (f.Some? && f.value.Overflowed? ==> r.Panic?)
    && (Astray(f) && r.Ran? ==> r.error.Some?)
    && (e0.Some? && r.Ran? ==> r.error.Some?)
  }

  // The running value of a loop that is on the track of the grammar.
  ghost predicate Faring(f: Fate, left: int, e0: Option<ScriptError>, e1: Option<ScriptError>) {
    f.Fine? && f.value == left && e1 == if f.named then e0 else Some(UndefinedVariable)
  }

  // ---------- one step of each loop ----------

  lemma LeafFate(e: Expr, vars: map<seq<Byte>, int>)
    ensures e.Lit? ==> FateOf(e, vars) == Ranged(e.n, true)
    ensures e.Ref? ==> FateOf(e, vars) == if e.name in vars then Fine(vars[e.name], true) else Fine(0, false)
  {
  }

  lemma ParensFate(ts: seq<Token>, pos: nat, vars: map<seq<Byte>, int>)
    requires pos < |ts| && ts[pos] == LParen
    ensures var s := SumAt(ts, pos + 1); var a := AtomAt(ts, pos);
            if s.Got? && s.pos < |ts| && ts[s.pos] == RParen then a.Got? && a.pos == s.pos + 1
                && AtomFate(a, vars) == SumFate(s, vars)
            else a.Fail?
  {
  }

  lemma NegFate(ts: seq<Token>, pos: nat, vars: map<seq<Byte>, int>)
    requires pos < |ts| && ts[pos] == Minus
    ensures var b := AtomAt(ts, pos + 1); var a := AtomAt(ts, pos); var f := AtomFate(b, vars);
            (a.Got? <==> b.Got?) && End(a) == End(b)
            && AtomFate(a, vars) == if f.Some? && f.value.Fine? then Some(Ranged(-f.value.value, f.value.named)) else f
  {
  }

  lemma FirstAtom(ts: seq<Token>, pos: nat, vars: map<seq<Byte>, int>)
    ensures var a := AtomAt(ts, pos); var p := ProductAt(ts, pos); var f := AtomFate(a, vars);
            && (a.Fail? ==> p.Fail?)
            && (a.Got? ==>
                  && p == ProductRest(ts, a.pos, OneAtom(a.tree))
                  && FateOf(ProductExpr(OneAtom(a.tree)), vars) == f.value)
            && (f.Some? && !f.value.Fine? && p.Got? ==> ProductFate(p, vars) == f)
  {
    var a := AtomAt(ts, pos);
    if a.Got? && !AtomFate(a, vars).value.Fine? { ProductFaulty(ts, a.pos, OneAtom(a.tree), vars); }
  }

  ghost function NextProductTree(ts: seq<Token>, pos: nat, p: Product): Product
    requires pos < |ts| && AtomAt(ts, pos + 1).Got?
  {
    var a := AtomAt(ts, pos + 1).tree;
    if ts[pos] == Star then Timesed(p, a) else Divided(p, a)
  }

  // The next factor: its fate and that of the product so far make the fate of the longer product.
  lemma NextAtom(ts: seq<Token>, pos: nat, p: Product, vars: map<seq<Byte>, int>)
    requires pos < |ts| && (ts[pos] == Star || ts[pos] == Slash)
    ensures var a := AtomAt(ts, pos + 1); var r := ProductRest(ts, pos, p);
            && (a.Fail? ==> r.Fail?)
            && (a.Got? ==>
                  var q := NextProductTree(ts, pos, p);
                  var f := Combined(FateOf(ProductExpr(p), vars), ts[pos], FateOf(AtomExpr(a.tree), vars));
                  && r == ProductRest(ts, a.pos, q) && FateOf(ProductExpr(q), vars) == f
                  && (!f.Fine? && r.Got? ==> ProductFate(r, vars) == Some(f)))
  {
    var a := AtomAt(ts, pos + 1);
    if a.Got? {
      var q := NextProductTree(ts, pos, p);
      if !FateOf(ProductExpr(q), vars).Fine? { ProductFaulty(ts, a.pos, q, vars); }
    }
  }

  lemma FirstProduct(ts: seq<Token>, pos: nat, vars: map<seq<Byte>, int>)
    ensures var p := ProductAt(ts, pos); var s := SumAt(ts, pos); var f := ProductFate(p, vars);
            && (p.Fail? ==> s.Fail?)
            && (p.Got? ==>
                  && s == SumRest(ts, p.pos, OneProduct(p.tree))
                  && FateOf(SumExpr(OneProduct(p.tree)), vars) == f.value)
            && (f.Some? && !f.value.Fine? && s.Got? ==> SumFate(s, vars) == f)
  {
    var p := ProductAt(ts, pos);
    if p.Got? && !ProductFate(p, vars).value.Fine? { SumFaulty(ts, p.pos, OneProduct(p.tree), vars); }
  }

  ghost function NextSumTree(ts: seq<Token>, pos: nat, s: Sum): Sum
    requires pos < |ts| && ProductAt(ts, pos + 1).Got?
  {
    var p := ProductAt(ts, pos + 1).tree;
    if ts[pos] == Plus then Plused(s, p) else Minused(s, p)
  }

  lemma NextProduct(ts: seq<Token>, pos: nat, s: Sum, vars: map<seq<Byte>, int>)
    requires pos < |ts| && (ts[pos] == Plus || ts[pos] == Minus)
    ensures var p := ProductAt(ts, pos + 1); var r := SumRest(ts, pos, s);
            && (p.Fail? ==> r.Fail?)
            && (p.Got? ==>
                  var q := NextSumTree(ts, pos, s);
                  var f := Combined(FateOf(SumExpr(s), vars), ts[pos], FateOf(ProductExpr(p.tree), vars));
                  && r == SumRest(ts, p.pos, q) && FateOf(SumExpr(q), vars) == f
                  && (!f.Fine? && r.Got? ==> SumFate(r, vars) == Some(f)))
  {
    var p := ProductAt(ts, pos + 1);
    if p.Got? {
      var q := NextSumTree(ts, pos, s);
      if !FateOf(SumExpr(q), vars).Fine? { SumFaulty(ts, p.pos, q, vars); }
    }
  }

  // ---------- the run and the grammar ----------

  lemma {:induction false} AtomReported(ts: seq<Token>, pos: nat, vars: map<seq<Byte>, int>, e: Option<ScriptError>)
    requires pos <= |ts|
    ensures var a := AtomAt(ts, pos); Reported(AtomFate(a, vars), End(a), e, RunAtom(ts, pos, vars, e))
    decreases |ts| - pos, 0
  {
    hide FateOf, AtomAt, SumAt, AtomFate, SumFate, RunAtom, RunSum, Reported, InRange, End;
    if pos < |ts| && ts[pos] == LParen {
      SumReported(ts, pos + 1, vars, e);
      ParensReported(ts, pos, vars, e);
    } else if pos < |ts| && ts[pos] == Minus {
      AtomReported(ts, pos + 1, vars, e);
      NegReported(ts, pos, vars, e);
    } else {
      LeafReported(ts, pos, vars, e);
    }
  }

  lemma LeafReported(ts: seq<Token>, pos: nat, vars: map<seq<Byte>, int>, e: Option<ScriptError>)
    requires pos <= |ts| && (pos < |ts| ==> ts[pos] != LParen && ts[pos] != Minus)
    ensures var a := AtomAt(ts, pos); Reported(AtomFate(a, vars), End(a), e, RunAtom(ts, pos, vars, e))
  {
    hide FateOf, InRange;
    if pos < |ts| && ts[pos].Num? { LeafFate(Lit(ts[pos].n), vars); }
    if pos < |ts| && ts[pos].Ident? { LeafFate(Ref(ts[pos].name), vars); }
  }

  lemma ParensReported(ts: seq<Token>, pos: nat, vars: map<seq<Byte>, int>, e: Option<ScriptError>)
    requires pos < |ts| && ts[pos] == LParen
    requires var s := SumAt(ts, pos + 1); Reported(SumFate(s, vars), End(s), e, RunSum(ts, pos + 1, vars, e))
    ensures var a := AtomAt(ts, pos); Reported(AtomFate(a, vars), End(a), e, RunAtom(ts, pos, vars, e))
  {
    hide AtomAt, SumAt, FateOf, RunSum, InRange;
    ParensFate(ts, pos, vars);
  }

  lemma NegReported(ts: seq<Token>, pos: nat, vars: map<seq<Byte>, int>, e: Option<ScriptError>)
    requires pos < |ts| && ts[pos] == Minus
    requires var b := AtomAt(ts, pos + 1); Reported(AtomFate(b, vars), End(b), e, RunAtom(ts, pos + 1, vars, e))
    ensures var a := AtomAt(ts, pos); Reported(AtomFate(a, vars), End(a), e, RunAtom(ts, pos, vars, e))
  {
    hide AtomAt, AtomFate, FateOf, InRange;
    NegFate(ts, pos, vars);
  }

  lemma {:induction false} ProductReported(ts: seq<Token>, pos: nat, vars: map<seq<Byte>, int>, e: Option<ScriptError>)
    requires pos <= |ts|
    ensures var p := ProductAt(ts, pos); Reported(ProductFate(p, vars), End(p), e, RunProduct(ts, pos, vars, e))
    decreases |ts| - pos, 1
  {
    hide FateOf, AtomAt, ProductRest, AtomExpr, ProductExpr, RunAtom, RunProductRest;
    AtomReported(ts, pos, vars, e);
    FirstAtom(ts, pos, vars);
    var a, r := AtomAt(ts, pos), RunAtom(ts, pos, vars, e);
    if r.Ran? {
      if Astray(AtomFate(a, vars)) {
        ProductGoesOn(ts, r.pos, r.value, vars, r.error);
      } else {
        ProductRestReported(ts, r.pos, OneAtom(a.tree), r.value, vars, e, r.error);
        if e.Some? { ProductGoesOn(ts, r.pos, r.value, vars, r.error); }
      }
    }
  }

  // An error noted stays noted.
  lemma {:induction false} ProductGoesOn(ts: seq<Token>, pos: nat, left: int, vars: map<seq<Byte>, int>,
                                         e: Option<ScriptError>)
    requires pos <= |ts| && e.Some?
    ensures var r := RunProductRest(ts, pos, left, vars, e); r.Ran? ==> r.error.Some?
    decreases |ts| - pos, 0
  {
    hide RunAtom, InRange, TruncDiv;
    if pos < |ts| && (ts[pos] == Star || ts[pos] == Slash) {
      AtomReported(ts, pos + 1, vars, e);
      var r := RunAtom(ts, pos + 1, vars, e);
      if r.Ran? && !(ts[pos] == Slash && r.value == 0) {
        ProductGoesOn(ts, r.pos, if ts[pos] == Star then left * r.value else TruncDiv(left, r.value), vars, r.error);
      }
    }
  }

  function Result(op: Token, a: int, b: int): int
    requires op in {Plus, Minus, Star} || (op == Slash && b != 0)
  {
    match op
    case Plus => a + b
    case Minus => a - b
    case Star => a * b
    case _ => TruncDiv(a, b)
  }

  lemma OnTrack(f: Fate, left: int, e0: Option<ScriptError>, e: Option<ScriptError>)
    requires Faring(f, left, e0, e)
    ensures f.Fine? && f.value == left && e == if f.named then e0 else Some(UndefinedVariable)
  {
  }

  // One operation on the track of the grammar: g is the fate of its right operand.
  lemma Operation(f: Fate, op: Token, g: Fate, left: int, e0: Option<ScriptError>, e: Option<ScriptError>)
    requires op in {Plus, Minus, Star, Slash} && Faring(f, left, e0, e)
    ensures var c := Combined(f, op, g);
            && (!g.Fine? ==> c == g)
            && (g.Fine? && op == Slash && g.value == 0 ==> c.ZeroDivisor?)
            && (g.Fine? && !(op == Slash && g.value == 0) ==>
                  var x := Result(op, left, g.value);
                  && (!InRange(x) ==> c.Overflowed?)
                  && (InRange(x) ==> c.Fine? && Faring(c, x, e0, if g.named then e else Some(UndefinedVariable))))
    ensures f.Fine?
  {
    hide TruncDiv, InRange;
  }

  // One turn of either loop, told on fates: g is that of the operand and w that of the whole, `next` the
  // end of the run from the operand on, and `out` the end of this one.
  lemma TurnReported(f: Fate, op: Token, g: Option<Fate>, end: nat, r: Ran, left: int, e0: Option<ScriptError>,
                     e: Option<ScriptError>, w: Option<Fate>, wEnd: nat, next: Ran, out: Ran)
    requires op in {Plus, Minus, Star, Slash} && Faring(f, left, e0, e) && Reported(g, end, e, r)
    requires g.None? ==> w.None?
    requires g.Some? && !Combined(f, op, g.value).Fine? && w.Some? ==> w == Some(Combined(f, op, g.value))
    requires out == if r.Panic? then Panic
                    else if op == Slash && r.value == 0 then Ran(0, r.pos, Some(DivisionByZero))
                    else if InRange(Result(op, left, r.value)) then next
                    else Panic
    requires r.Ran? && r.error.Some? && next.Ran? ==> next.error.Some?
    requires g.Some? && Combined(f, op, g.value).Fine? ==> Reported(w, wEnd, e0, next)
    ensures Reported(w, wEnd, e0, out)
  {
    hide Combined, Faring, InRange, Result;
    OnTrack(f, left, e0, e);
    if g.Some? { Operation(f, op, g.value, left, e0, e); }
  }

  lemma OperandRead(g: Option<Fate>, end: nat, e: Option<ScriptError>, r: Ran)
    requires g.Some? && g.value.Fine? && Reported(g, end, e, r)
    ensures r == Ran(g.value.value, end, if g.value.named then e else Some(UndefinedVariable))
  {
  }

  lemma OutOfProduct(ts: seq<Token>, pos: nat, left: int, vars: map<seq<Byte>, int>, e: Option<ScriptError>)
    requires pos < |ts| && (ts[pos] == Star || ts[pos] == Slash)
    ensures var r, op := RunAtom(ts, pos + 1, vars, e), ts[pos];
            RunProductRest(ts, pos, left, vars, e)
            == if r.Panic? then Panic
               else if op == Slash && r.value == 0 then Ran(0, r.pos, Some(DivisionByZero))
               else if InRange(Result(op, left, r.value)) then
                 RunProductRest(ts, r.pos, Result(op, left, r.value), vars, r.error)
               else Panic
  {
    hide RunAtom, InRange, TruncDiv;
  }

  lemma ProductStopReported(ts: seq<Token>, pos: nat, p: Product, left: int, vars: map<seq<Byte>, int>,
                          e0: Option<ScriptError>, e: Option<ScriptError>)
    requires pos <= |ts| && Faring(FateOf(ProductExpr(p), vars), left, e0, e)
    requires !(pos < |ts| && (ts[pos] == Star || ts[pos] == Slash))
    ensures var w := ProductRest(ts, pos, p);
            Reported(ProductFate(w, vars), End(w), e0, RunProductRest(ts, pos, left, vars, e))
  {
    hide FateOf, ProductExpr;
  }

  lemma {:induction false} ProductRestReported(ts: seq<Token>, pos: nat, p: Product, left: int,
                                               vars: map<seq<Byte>, int>, e0: Option<ScriptError>,
                                               e: Option<ScriptError>)
    requires pos <= |ts| && Faring(FateOf(ProductExpr(p), vars), left, e0, e)
    ensures var w := ProductRest(ts, pos, p);
            Reported(ProductFate(w, vars), End(w), e0, RunProductRest(ts, pos, left, vars, e))
    decreases |ts| - pos, 0
  {
    hide FateOf, AtomAt, ProductRest, AtomExpr, ProductExpr, RunAtom, InRange, Result, Combined, Faring, Reported;
    if pos < |ts| && (ts[pos] == Star || ts[pos] == Slash) {
      var a, w, r := AtomAt(ts, pos + 1), ProductRest(ts, pos, p), RunAtom(ts, pos + 1, vars, e);
      var f, g, op := FateOf(ProductExpr(p), vars), AtomFate(a, vars), ts[pos];
      AtomReported(ts, pos + 1, vars, e);
      NextAtom(ts, pos, p, vars);
      OutOfProduct(ts, pos, left, vars, e);
      var next := Panic;
      if r.Ran? && !(op == Slash && r.value == 0) {
        next := RunProductRest(ts, r.pos, Result(op, left, r.value), vars, r.error);
        if r.error.Some? { ProductGoesOn(ts, r.pos, Result(op, left, r.value), vars, r.error); }
      }
      if g.Some? {
        Operation(f, op, g.value, left, e0, e);
        if Combined(f, op, g.value).Fine? {
          OperandRead(g, End(a), e, r);
          ProductRestReported(ts, r.pos, NextProductTree(ts, pos, p), Result(op, left, r.value), vars, e0, r.error);
        }
      }
      TurnReported(f, op, g, End(a), r, left, e0, e, ProductFate(w, vars), End(w), next,
                   RunProductRest(ts, pos, left, vars, e));
    } else {
      ProductStopReported(ts, pos, p, left, vars, e0, e);
    }
  }

  lemma {:induction false} SumReported(ts: seq<Token>, pos: nat, vars: map<seq<Byte>, int>, e: Option<ScriptError>)
    requires pos <= |ts|
    ensures var s := SumAt(ts, pos); Reported(SumFate(s, vars), End(s), e, RunSum(ts, pos, vars, e))
    decreases |ts| - pos, 2
  {
    hide FateOf, ProductAt, SumRest, ProductExpr, SumExpr, RunProduct, RunSumRest;
    ProductReported(ts, pos, vars, e);
    FirstProduct(ts, pos, vars);
    var p, r := ProductAt(ts, pos), RunProduct(ts, pos, vars, e);
    if r.Ran? {
      if Astray(ProductFate(p, vars)) {
        SumGoesOn(ts, r.pos, r.value, vars, r.error);
      } else {
        SumRestReported(ts, r.pos, OneProduct(p.tree), r.value, vars, e, r.error);
        if e.Some? { SumGoesOn(ts, r.pos, r.value, vars, r.error); }
      }
    }
  }

  lemma {:induction false} SumGoesOn(ts: seq<Token>, pos: nat, left: int, vars: map<seq<Byte>, int>,
                                     e: Option<ScriptError>)
    requires pos <= |ts| && e.Some?
    ensures var r := RunSumRest(ts, pos, left, vars, e); r.Ran? ==> r.error.Some?
    decreases |ts| - pos, 0
  {
    hide RunProduct, InRange;
    if pos < |ts| && (ts[pos] == Plus || ts[pos] == Minus) {
      ProductReported(ts, pos + 1, vars, e);
      var r := RunProduct(ts, pos + 1, vars, e);
      if r.Ran? { SumGoesOn(ts, r.pos, if ts[pos] == Plus then left + r.value else left - r.value, vars, r.error); }
    }
  }

  lemma OutOfSum(ts: seq<Token>, pos: nat, left: int, vars: map<seq<Byte>, int>, e: Option<ScriptError>)
    requires pos < |ts| && (ts[pos] == Plus || ts[pos] == Minus)
    ensures var r, op := RunProduct(ts, pos + 1, vars, e), ts[pos];
            RunSumRest(ts, pos, left, vars, e)
            == if r.Panic? then Panic
               else if InRange(Result(op, left, r.value)) then
                 RunSumRest(ts, r.pos, Result(op, left, r.value), vars, r.error)
               else Panic
  {
    hide RunProduct, InRange, TruncDiv;
  }

  lemma SumStopReported(ts: seq<Token>, pos: nat, s: Sum, left: int, vars: map<seq<Byte>, int>,
                          e0: Option<ScriptError>, e: Option<ScriptError>)
    requires pos <= |ts| && Faring(FateOf(SumExpr(s), vars), left, e0, e)
    requires !(pos < |ts| && (ts[pos] == Plus || ts[pos] == Minus))
    ensures var w := SumRest(ts, pos, s);
            Reported(SumFate(w, vars), End(w), e0, RunSumRest(ts, pos, left, vars, e))
  {
    hide FateOf, SumExpr;
  }

  lemma {:induction false} SumRestReported(ts: seq<Token>, pos: nat, s: Sum, left: int,
                                           vars: map<seq<Byte>, int>, e0: Option<ScriptError>,
                                           e: Option<ScriptError>)
    requires pos <= |ts| && Faring(FateOf(SumExpr(s), vars), left, e0, e)
    ensures var w := SumRest(ts, pos, s);
            Reported(SumFate(w, vars), End(w), e0, RunSumRest(ts, pos, left, vars, e))
    decreases |ts| - pos, 0
  {
    hide FateOf, ProductAt, SumRest, ProductExpr, SumExpr, RunProduct, InRange, Result, Combined, Faring, Reported;
    if pos < |ts| && (ts[pos] == Plus || ts[pos] == Minus) {
      var a, w, r := ProductAt(ts, pos + 1), SumRest(ts, pos, s), RunProduct(ts, pos + 1, vars, e);
      var f, g, op := FateOf(SumExpr(s), vars), ProductFate(a, vars), ts[pos];
      ProductReported(ts, pos + 1, vars, e);
      NextProduct(ts, pos, s, vars);
      OutOfSum(ts, pos, left, vars, e);
      var next := Panic;
      if r.Ran? {
        next := RunSumRest(ts, r.pos, Result(op, left, r.value), vars, r.error);
        if r.error.Some? { SumGoesOn(ts, r.pos, Result(op, left, r.value), vars, r.error); }
      }
      if g.Some? {
        Operation(f, op, g.value, left, e0, e);
        if Combined(f, op, g.value).Fine? {
          OperandRead(g, End(a), e, r);
          SumRestReported(ts, r.pos, NextSumTree(ts, pos, s), Result(op, left, r.value), vars, e0, r.error);
        }
      }
      TurnReported(f, op, g, End(a), r, left, e0, e, SumFate(w, vars), End(w), next,
                   RunSumRest(ts, pos, left, vars, e));
    } else {
      SumStopReported(ts, pos, s, left, vars, e0, e);
    }
  }

  // Past a zero divisor the rest is still evaluated: it may be read to the end with the error noted, or
  // overflow.
  lemma PastTheFault()
    ensures RunSum([Num(1), Slash, Num(0)], 0, map[], None) == Ran(0, 3, Some(DivisionByZero))
    ensures RunSum([Num(1), Slash, Num(0), Plus, Num(I64_MAX), Plus, Num(1)], 0, map[], None) == Panic
  {
    var ts := [Num(1), Slash, Num(0)];
    assert RunAtom(ts, 2, map[], None) == Ran(0, 3, None);
    assert RunProduct(ts, 0, map[], None) == Ran(0, 3, Some(DivisionByZero));
    var us := [Num(1), Slash, Num(0), Plus, Num(I64_MAX), Plus, Num(1)];
    var e := Some(DivisionByZero);
    assert RunAtom(us, 2, map[], None) == Ran(0, 3, None);
    assert RunProduct(us, 0, map[], None) == Ran(0, 3, e);
    assert RunProduct(us, 4, map[], e) == Ran(I64_MAX, 5, e);
    assert RunProduct(us, 6, map[], e) == Ran(1, 7, e);
    assert RunSumRest(us, 5, I64_MAX, map[], e) == Panic;
    assert RunSumRest(us, 3, 0, map[], e) == Panic;
  }
}
