// The expression language of the script interpreter: tokens, grammar, syntax
// trees and their values, with the parser as a function.
module ScriptGrammar {
  import opened Wrappers
  import opened Bits

  datatype Token = Num(n: nat) | Ident(name: seq<Byte>) | Plus | Minus | Star | Slash | LParen | RParen

  // ---------- abstract syntax and meaning ----------

  datatype Expr =
    | Lit(n: nat)
    | Ref(name: seq<Byte>)
    | Neg(e: Expr)
    | Add(l: Expr, r: Expr)
    | Sub(l: Expr, r: Expr)
    | Mul(l: Expr, r: Expr)
    | Div(l: Expr, r: Expr)

  const I64_MIN: int := -0x8000_0000_0000_0000
  const I64_MAX: int := 0x7fff_ffff_ffff_ffff

  predicate InRange(v: int) { I64_MIN <= v <= I64_MAX }

  function Checked(v: int): Option<int> { if InRange(v) then Some(v) else None }

  // Division that truncates toward zero.
  function TruncDiv(a: int, b: int): (q: int)
    requires b != 0
  {
    if a >= 0 then (if b > 0 then a / b else -(a / -b))
    else (if b > 0 then -(-a / b) else -a / -b)
  }

  // The quotient truncates: the remainder is smaller than the divisor and has the dividend's sign.
  lemma TruncDivIs(a: int, b: int)
    requires b != 0
    ensures var r := a - TruncDiv(a, b) * b;
            (if b > 0 then -b < r < b else b < r < -b) && (a >= 0 ==> r >= 0) && (a <= 0 ==> r <= 0)
  {
    if a >= 0 {
      if b > 0 { DivIs(a, b); } else { DivIs(a, -b); NegTimes(a / -b, b); }
    } else {
      if b > 0 { DivIs(-a, b); NegTimes(-a / b, b); } else { DivIs(-a, -b); NegTimes(-a / -b, b); }
    }
  }

  lemma DivIs(a: int, b: int)
    requires a >= 0 && b > 0
    ensures 0 <= a - a / b * b < b
  {
  }

  lemma NegTimes(x: int, y: int)
    ensures -x * y == -(x * y) && x * -y == -(x * y)
  {
  }

  // None when a name is undefined, a divisor is zero or a value leaves the 64-bit range.
  function Value(e: Expr, vars: map<seq<Byte>, int>): (v: Option<int>)
  {
    match e
    case Lit(n) => Checked(n)
    case Ref(name) => if name in vars then Some(vars[name]) else None
    case Neg(x) =>
      var v := Value(x, vars);
      if v.None? then None else Checked(-v.value)
    case Add(l, r) =>
      var a, b := Value(l, vars), Value(r, vars);
      if a.None? || b.None? then None else Checked(a.value + b.value)
    case Sub(l, r) =>
      var a, b := Value(l, vars), Value(r, vars);
      if a.None? || b.None? then None else Checked(a.value - b.value)
    case Mul(l, r) =>
      var a, b := Value(l, vars), Value(r, vars);
      if a.None? || b.None? then None else Checked(a.value * b.value)
    case Div(l, r) =>
      var a, b := Value(l, vars), Value(r, vars);
      if a.None? || b.None? || b.value == 0 then None else Checked(TruncDiv(a.value, b.value))
  }

  // What evaluation from left to right meets first.  An undefined name is noted and counts as zero; a
  // result outside 64 bits stops everything; after a zero divisor the rest is not evaluated as written.
  datatype Fate = Fine(value: int, named: bool) | Overflowed | ZeroDivisor

  function FateOf(e: Expr, vars: map<seq<Byte>, int>): Fate {
    match e
    case Lit(n) => Ranged(n, true)
    case Ref(name) => if name in vars then Fine(vars[name], true) else Fine(0, false)
    case Neg(x) =>
      var f := FateOf(x, vars);
      if f.Fine? then Ranged(-f.value, f.named) else f
    case Add(l, r) => Combined(FateOf(l, vars), Plus, FateOf(r, vars))
    case Sub(l, r) => Combined(FateOf(l, vars), Minus, FateOf(r, vars))
    case Mul(l, r) => Combined(FateOf(l, vars), Star, FateOf(r, vars))
    case Div(l, r) => Combined(FateOf(l, vars), Slash, FateOf(r, vars))
  }

  function Ranged(v: int, named: bool): Fate { if InRange(v) then Fine(v, named) else Overflowed }

  function Combined(f: Fate, op: Token, g: Fate): Fate {
    if !f.Fine? then f
    else if !g.Fine? then g
    else
      var named := f.named && g.named;
      match op
      case Plus => Ranged(f.value + g.value, named)
      case Minus => Ranged(f.value - g.value, named)
      case Star => Ranged(f.value * g.value, named)
      case _ => if g.value == 0 then ZeroDivisor else Ranged(TruncDiv(f.value, g.value), named)
  }

  // An expression has a value exactly when nothing goes wrong and every name is defined.
  lemma {:induction false} FateIsValue(e: Expr, vars: map<seq<Byte>, int>)
    ensures Value(e, vars) == if FateOf(e, vars).Fine? && FateOf(e, vars).named then Some(FateOf(e, vars).value)
            else None
  {
    hide InRange, TruncDiv;
    match e
    case Lit(_) =>
    case Ref(_) =>
    case Neg(x) => FateIsValue(x, vars);
    case Add(l, r) => FateIsValue(l, vars); FateIsValue(r, vars);
    case Sub(l, r) => FateIsValue(l, vars); FateIsValue(r, vars);
    case Mul(l, r) => FateIsValue(l, vars); FateIsValue(r, vars);
    case Div(l, r) => FateIsValue(l, vars); FateIsValue(r, vars);
  }

  // ---------- the grammar ----------
  //
  //   sum     ::= product | sum '+' product | sum '-' product
  //   product ::= atom | product '*' atom | product '/' atom
  //   atom    ::= number | name | '(' sum ')' | '-' atom

  datatype Sum = OneProduct(p: Product) | Plused(s: Sum, p: Product) | Minused(s: Sum, p: Product)
  datatype Product = OneAtom(a: Atom) | Timesed(p: Product, a: Atom) | Divided(p: Product, a: Atom)
  datatype Atom = NumAtom(n: nat) | NameAtom(name: seq<Byte>) | Parens(s: Sum) | Negated(a: Atom)

  function SumTokens(s: Sum): (t: seq<Token>)
    ensures |t| > 0
  {
    match s
    case OneProduct(p) => ProductTokens(p)
    case Plused(s, p) => SumTokens(s) + [Plus] + ProductTokens(p)
    case Minused(s, p) => SumTokens(s) + [Minus] + ProductTokens(p)
  }

  function ProductTokens(p: Product): (t: seq<Token>)
    ensures |t| > 0
  {
    match p
    case OneAtom(a) => AtomTokens(a)
    case Timesed(p, a) => ProductTokens(p) + [Star] + AtomTokens(a)
    case Divided(p, a) => ProductTokens(p) + [Slash] + AtomTokens(a)
  }

  function AtomTokens(a: Atom): (t: seq<Token>)
    ensures |t| > 0
  {
    match a
    case NumAtom(n) => [Num(n)]
    case NameAtom(name) => [Ident(name)]
    case Parens(s) => [LParen] + SumTokens(s) + [RParen]
    case Negated(a) => [Minus] + AtomTokens(a)
  }

  function SumExpr(s: Sum): Expr {
    match s
    case OneProduct(p) => ProductExpr(p)
    case Plused(s, p) => Add(SumExpr(s), ProductExpr(p))
    case Minused(s, p) => Sub(SumExpr(s), ProductExpr(p))
  }

  function ProductExpr(p: Product): Expr {
    match p
    case OneAtom(a) => AtomExpr(a)
    case Timesed(p, a) => Mul(ProductExpr(p), AtomExpr(a))
    case Divided(p, a) => Div(ProductExpr(p), AtomExpr(a))
  }

  function AtomExpr(a: Atom): Expr {
    match a
    case NumAtom(n) => Lit(n)
    case NameAtom(name) => Ref(name)
    case Parens(s) => SumExpr(s)
    case Negated(a) => Neg(AtomExpr(a))
  }

  // ---------- parsing as a function ----------

  datatype Parsed<T> = Fail | Got(tree: T, pos: nat)

  function AtomAt(ts: seq<Token>, pos: nat): (r: Parsed<Atom>)
    ensures r.Got? ==> pos < r.pos <= |ts|
    decreases |ts| - pos, 0
  {
    if pos >= |ts| then Fail
    else
      match ts[pos]
      case Num(n) => Got(NumAtom(n), pos + 1)
      case Ident(name) => Got(NameAtom(name), pos + 1)
      case LParen =>
        (match SumAt(ts, pos + 1)
         case Fail => Fail
         case Got(s, q) => if q < |ts| && ts[q] == RParen then Got(Parens(s), q + 1) else Fail)
      case Minus =>
        (match AtomAt(ts, pos + 1)
         case Fail => Fail
         case Got(a, q) => Got(Negated(a), q))
      case _ => Fail
  }

  function ProductAt(ts: seq<Token>, pos: nat): (r: Parsed<Product>)
    ensures r.Got? ==> pos < r.pos <= |ts|
    decreases |ts| - pos, 2
  {
    match AtomAt(ts, pos)
    case Fail => Fail
    case Got(a, q) => ProductRest(ts, q, OneAtom(a))
  }

  // The product read so far is p; go on from pos.
  function ProductRest(ts: seq<Token>, pos: nat, p: Product): (r: Parsed<Product>)
    ensures r.Got? && pos <= |ts| ==> pos <= r.pos <= |ts|
    decreases |ts| - pos, 1
  {
    if pos < |ts| && (ts[pos] == Star || ts[pos] == Slash) then
      match AtomAt(ts, pos + 1)
      case Fail => Fail
      case Got(a, q) => ProductRest(ts, q, if ts[pos] == Star then Timesed(p, a) else Divided(p, a))
    else Got(p, pos)
  }

  function SumAt(ts: seq<Token>, pos: nat): (r: Parsed<Sum>)
    ensures r.Got? ==> pos < r.pos <= |ts|
    decreases |ts| - pos, 4
  {
    match ProductAt(ts, pos)
    case Fail => Fail
    case Got(p, q) => SumRest(ts, q, OneProduct(p))
  }

  function SumRest(ts: seq<Token>, pos: nat, s: Sum): (r: Parsed<Sum>)
    ensures r.Got? && pos <= |ts| ==> pos <= r.pos <= |ts|
    decreases |ts| - pos, 3
  {
    if pos < |ts| && (ts[pos] == Plus || ts[pos] == Minus) then
      match ProductAt(ts, pos + 1)
      case Fail => Fail
      case Got(p, q) => SumRest(ts, q, if ts[pos] == Plus then Plused(s, p) else Minused(s, p))
    else Got(s, pos)
  }

  // ---------- the parser reads exactly the grammar ----------

  ghost predicate Reads(ts: seq<Token>, pos: nat, q: nat, t: seq<Token>) {
    pos <= q <= |ts| && ts[pos..q] == t
  }

  lemma ReadsJoin(ts: seq<Token>, pos: nat, q: nat, r: nat, t: seq<Token>, u: seq<Token>)
    requires Reads(ts, pos, q, t) && Reads(ts, q, r, u)
    ensures Reads(ts, pos, r, t + u)
  {
  }

  lemma ReadsOne(ts: seq<Token>, pos: nat)
    requires pos < |ts|
    ensures Reads(ts, pos, pos + 1, [ts[pos]])
  {
  }

  // Soundness: what was parsed are the tokens read.
  lemma {:induction false} AtomSound(ts: seq<Token>, pos: nat)
    ensures var r := AtomAt(ts, pos); r.Got? ==> Reads(ts, pos, r.pos, AtomTokens(r.tree))
    decreases |ts| - pos, 0
  {
    hide Reads, SumAt, SumTokens;
    if pos < |ts| {
      ReadsOne(ts, pos);
      match ts[pos]
      case LParen =>
        SumSound(ts, pos + 1);
        var s := SumAt(ts, pos + 1);
        if s.Got? && s.pos < |ts| && ts[s.pos] == RParen {
          ReadsOne(ts, s.pos);
          ReadsJoin(ts, pos, pos + 1, s.pos, [LParen], SumTokens(s.tree));
          ReadsJoin(ts, pos, s.pos, s.pos + 1, [LParen] + SumTokens(s.tree), [RParen]);
        }
      case Minus =>
        AtomSound(ts, pos + 1);
        var a := AtomAt(ts, pos + 1);
        if a.Got? { ReadsJoin(ts, pos, pos + 1, a.pos, [Minus], AtomTokens(a.tree)); }
      case _ =>
    }
  }

  lemma {:induction false} ProductSound(ts: seq<Token>, pos: nat)
    ensures var r := ProductAt(ts, pos); r.Got? ==> Reads(ts, pos, r.pos, ProductTokens(r.tree))
    decreases |ts| - pos, 2
  {
    AtomSound(ts, pos);
    var a := AtomAt(ts, pos);
    if a.Got? { ProductRestSound(ts, pos, a.pos, OneAtom(a.tree)); }
  }

  lemma {:induction false} ProductRestSound(ts: seq<Token>, start: nat, pos: nat, p: Product)
    requires Reads(ts, start, pos, ProductTokens(p))
    ensures var r := ProductRest(ts, pos, p); r.Got? ==> Reads(ts, start, r.pos, ProductTokens(r.tree))
    decreases |ts| - pos, 1
  {
    if pos < |ts| && (ts[pos] == Star || ts[pos] == Slash) {
      AtomSound(ts, pos + 1);
      var a := AtomAt(ts, pos + 1);
      if a.Got? {
        ReadsOne(ts, pos);
        ReadsJoin(ts, start, pos, pos + 1, ProductTokens(p), [ts[pos]]);
        ReadsJoin(ts, start, pos + 1, a.pos, ProductTokens(p) + [ts[pos]], AtomTokens(a.tree));
        ProductRestSound(ts, start, a.pos, if ts[pos] == Star then Timesed(p, a.tree) else Divided(p, a.tree));
      }
    }
  }

  lemma {:induction false} SumSound(ts: seq<Token>, pos: nat)
    ensures var r := SumAt(ts, pos); r.Got? ==> Reads(ts, pos, r.pos, SumTokens(r.tree))
    decreases |ts| - pos, 4
  {
    ProductSound(ts, pos);
    var p := ProductAt(ts, pos);
    if p.Got? { SumRestSound(ts, pos, p.pos, OneProduct(p.tree)); }
  }

  lemma {:induction false} SumRestSound(ts: seq<Token>, start: nat, pos: nat, s: Sum)
    requires Reads(ts, start, pos, SumTokens(s))
    ensures var r := SumRest(ts, pos, s); r.Got? ==> Reads(ts, start, r.pos, SumTokens(r.tree))
    decreases |ts| - pos, 3
  {
    if pos < |ts| && (ts[pos] == Plus || ts[pos] == Minus) {
      ProductSound(ts, pos + 1);
      var p := ProductAt(ts, pos + 1);
      if p.Got? {
        ReadsOne(ts, pos);
        ReadsJoin(ts, start, pos, pos + 1, SumTokens(s), [ts[pos]]);
        ReadsJoin(ts, start, pos + 1, p.pos, SumTokens(s) + [ts[pos]], ProductTokens(p.tree));
        SumRestSound(ts, start, p.pos, if ts[pos] == Plus then Plused(s, p.tree) else Minused(s, p.tree));
      }
    }
  }

  lemma ReadsSplit(ts: seq<Token>, pos: nat, r: nat, t: seq<Token>, u: seq<Token>)
    requires Reads(ts, pos, r, t + u)
    ensures Reads(ts, pos, pos + |t|, t) && Reads(ts, pos + |t|, r, u)
  {
    assert ts[pos..pos + |t|] == ts[pos..r][..|t|];
    assert ts[pos + |t|..r] == ts[pos..r][|t|..];
  }

  lemma ReadsFirst(ts: seq<Token>, pos: nat, r: nat, x: Token)
    requires Reads(ts, pos, r, [x])
    ensures r == pos + 1 && pos < |ts| && ts[pos] == x
  {
    assert ts[pos..r][0] == x;
  }

  // An operator between two stretches of tokens.
  lemma ReadsAround(ts: seq<Token>, pos: nat, r: nat, t: seq<Token>, op: Token, u: seq<Token>)
    requires Reads(ts, pos, r, t + [op] + u)
    ensures var n := pos + |t|;
            n < r <= |ts| && ts[n] == op && Reads(ts, pos, n, t) && Reads(ts, n + 1, r, u)
  {
    var n := pos + |t|;
    ReadsSplit(ts, pos, r, t + [op], u);
    ReadsSplit(ts, pos, n + 1, t, [op]);
    ReadsFirst(ts, n, n + 1, op);
  }

  // Completeness: a tree whose tokens stand at pos is the tree parsed there, up to what may follow.
  lemma {:induction false} AtomComplete(ts: seq<Token>, pos: nat, q: nat, a: Atom)
    requires Reads(ts, pos, q, AtomTokens(a))
    ensures AtomAt(ts, pos) == Got(a, q)
    decreases a, 0
  {
    hide Reads, SumAt, SumTokens;
    match a
    case NumAtom(n) => ReadsFirst(ts, pos, q, Num(n));
    case NameAtom(name) => ReadsFirst(ts, pos, q, Ident(name));
    case Parens(s) =>
      ReadsSplit(ts, pos, q, [LParen] + SumTokens(s), [RParen]);
      ReadsFirst(ts, pos + 1 + |SumTokens(s)|, q, RParen);
      ReadsSplit(ts, pos, q - 1, [LParen], SumTokens(s));
      ReadsFirst(ts, pos, pos + 1, LParen);
      SumComplete(ts, pos + 1, q - 1, s);
    case Negated(b) =>
      ReadsSplit(ts, pos, q, [Minus], AtomTokens(b));
      ReadsFirst(ts, pos, pos + 1, Minus);
      AtomComplete(ts, pos + 1, q, b);
  }

  lemma {:induction false} ProductComplete(ts: seq<Token>, pos: nat, q: nat, p: Product)
    requires Reads(ts, pos, q, ProductTokens(p))
    ensures ProductAt(ts, pos) == ProductRest(ts, q, p)
    decreases p, 1
  {
    match p
    case OneAtom(a) => AtomComplete(ts, pos, q, a);
    case Timesed(p', a) => ProductStep(ts, pos, q, p', Star, a);
    case Divided(p', a) => ProductStep(ts, pos, q, p', Slash, a);
  }

  lemma {:induction false} ProductStep(ts: seq<Token>, pos: nat, q: nat, p: Product, op: Token, a: Atom)
    requires op == Star || op == Slash
    requires Reads(ts, pos, q, ProductTokens(p) + [op] + AtomTokens(a))
    ensures ProductAt(ts, pos) == ProductRest(ts, q, if op == Star then Timesed(p, a) else Divided(p, a))
    decreases if op == Star then Timesed(p, a) else Divided(p, a), 0
  {
    hide Reads, ProductTokens, AtomTokens, ProductAt, AtomAt;
    var n := pos + |ProductTokens(p)|;
    ReadsAround(ts, pos, q, ProductTokens(p), op, AtomTokens(a));
    ProductComplete(ts, pos, n, p);
    AtomComplete(ts, n + 1, q, a);
  }

  lemma {:induction false} SumComplete(ts: seq<Token>, pos: nat, q: nat, s: Sum)
    requires Reads(ts, pos, q, SumTokens(s))
    requires q == |ts| || ts[q] == RParen
    ensures SumAt(ts, pos) == Got(s, q)
    decreases s, 2
  {
    SumReaches(ts, pos, q, s);
  }

  lemma {:induction false} SumReaches(ts: seq<Token>, pos: nat, q: nat, s: Sum)
    requires Reads(ts, pos, q, SumTokens(s))
    requires q == |ts| || ts[q] == RParen || ts[q] == Plus || ts[q] == Minus
    ensures SumAt(ts, pos) == SumRest(ts, q, s)
    decreases s, 1
  {
    match s
    case OneProduct(p) => ProductComplete(ts, pos, q, p);
    case Plused(s', p) => SumStep(ts, pos, q, s', Plus, p);
    case Minused(s', p) => SumStep(ts, pos, q, s', Minus, p);
  }

  lemma {:induction false} SumStep(ts: seq<Token>, pos: nat, q: nat, s: Sum, op: Token, p: Product)
    requires op == Plus || op == Minus
    requires Reads(ts, pos, q, SumTokens(s) + [op] + ProductTokens(p))
    requires q == |ts| || ts[q] == RParen || ts[q] == Plus || ts[q] == Minus
    ensures SumAt(ts, pos) == SumRest(ts, q, if op == Plus then Plused(s, p) else Minused(s, p))
    decreases if op == Plus then Plused(s, p) else Minused(s, p), 0
  {
    hide Reads, SumTokens, ProductTokens, SumAt, ProductAt;
    var n := pos + |SumTokens(s)|;
    ReadsAround(ts, pos, q, SumTokens(s), op, ProductTokens(p));
    SumReaches(ts, pos, n, s);
    ProductComplete(ts, n + 1, q, p);
  }

  // The whole token list is one expression exactly when the parser takes it all.
  lemma ParsesExactly(ts: seq<Token>, s: Sum)
    ensures SumTokens(s) == ts <==> SumAt(ts, 0) == Got(s, |ts|)
  {
    if SumTokens(s) == ts {
      assert ts[0..|ts|] == ts;
      SumComplete(ts, 0, |ts|, s);
    }
    if SumAt(ts, 0) == Got(s, |ts|) {
      SumSound(ts, 0);
      assert ts[0..|ts|] == ts;
    }
  }

  // No two trees have the same tokens.
  lemma Unambiguous(s: Sum, s': Sum)
    requires SumTokens(s) == SumTokens(s')
    ensures s == s'
  {
    ParsesExactly(SumTokens(s), s);
    ParsesExactly(SumTokens(s), s');
  }
}
