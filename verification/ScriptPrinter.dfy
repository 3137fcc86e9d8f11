// Writing expressions down: with as few parentheses as the grammar allows, then
// as characters; and the tokenizer as a function of the text.
module ScriptPrinter {
  import opened Wrappers
  import opened Bits
  import opened ScriptGrammar

  // ---------- trees with parentheses only where precedence needs them ----------

  function ToSum(e: Expr): Sum
    decreases e, 1
  {
    match e
    case Add(l, r) => Plused(ToSum(l), ToProduct(r))
    case Sub(l, r) => Minused(ToSum(l), ToProduct(r))
    case _ => OneProduct(ToProduct(e))
  }

  function ToProduct(e: Expr): Product
    decreases e, 0
  {
    match e
    case Add(l, r) => OneAtom(Parens(Plused(ToSum(l), ToProduct(r))))
    case Sub(l, r) => OneAtom(Parens(Minused(ToSum(l), ToProduct(r))))
    case Mul(l, r) => Timesed(ToProduct(l), ToAtom(r))
    case Div(l, r) => Divided(ToProduct(l), ToAtom(r))
    case Lit(n) => OneAtom(NumAtom(n))
    case Ref(name) => OneAtom(NameAtom(name))
    case Neg(x) => OneAtom(Negated(ToAtom(x)))
  }

  function ToAtom(e: Expr): Atom
    decreases e, 0
  {
    match e
    case Add(l, r) => Parens(Plused(ToSum(l), ToProduct(r)))
    case Sub(l, r) => Parens(Minused(ToSum(l), ToProduct(r)))
    case Mul(l, r) => Parens(OneProduct(Timesed(ToProduct(l), ToAtom(r))))
    case Div(l, r) => Parens(OneProduct(Divided(ToProduct(l), ToAtom(r))))
    case Lit(n) => NumAtom(n)
    case Ref(name) => NameAtom(name)
    case Neg(x) => Negated(ToAtom(x))
  }

  // How the three levels wrap one another.
  lemma Levels(e: Expr)
    ensures e.Add? ==> ToProduct(e) == OneAtom(ToAtom(e)) && ToAtom(e) == Parens(ToSum(e))
                       && ToSum(e) == Plused(ToSum(e.l), ToProduct(e.r))
    ensures e.Sub? ==> ToProduct(e) == OneAtom(ToAtom(e)) && ToAtom(e) == Parens(ToSum(e))
                       && ToSum(e) == Minused(ToSum(e.l), ToProduct(e.r))
    ensures e.Mul? ==> ToSum(e) == OneProduct(ToProduct(e)) && ToAtom(e) == Parens(ToSum(e))
                       && ToProduct(e) == Timesed(ToProduct(e.l), ToAtom(e.r))
    ensures e.Div? ==> ToSum(e) == OneProduct(ToProduct(e)) && ToAtom(e) == Parens(ToSum(e))
                       && ToProduct(e) == Divided(ToProduct(e.l), ToAtom(e.r))
    ensures e.Lit? || e.Ref? || e.Neg? ==> ToSum(e) == OneProduct(ToProduct(e)) && ToProduct(e) == OneAtom(ToAtom(e))
    ensures e.Lit? ==> ToAtom(e) == NumAtom(e.n)
    ensures e.Ref? ==> ToAtom(e) == NameAtom(e.name)
    ensures e.Neg? ==> ToAtom(e) == Negated(ToAtom(e.e))
  {
  }

  // What is written is the expression.
  lemma {:induction false} PrintsExpr(e: Expr)
    ensures SumExpr(ToSum(e)) == e && ProductExpr(ToProduct(e)) == e && AtomExpr(ToAtom(e)) == e
  {
    hide ToSum, ToProduct, ToAtom;
    Levels(e);
    match e
    case Add(l, r) => PrintsExpr(l); PrintsExpr(r);
    case Sub(l, r) => PrintsExpr(l); PrintsExpr(r);
    case Mul(l, r) => PrintsExpr(l); PrintsExpr(r);
    case Div(l, r) => PrintsExpr(l); PrintsExpr(r);
    case Neg(x) => PrintsExpr(x); assert AtomExpr(ToAtom(e)) == e; assert ProductExpr(ToProduct(e)) == e;
    case Lit(_) => assert ProductExpr(ToProduct(e)) == e;
    case Ref(_) => assert ProductExpr(ToProduct(e)) == e;
  }

  // No other tree for the same expression has fewer parentheses.
  function SumParens(s: Sum): nat {
    match s
    case OneProduct(p) => ProductParens(p)
    case Plused(s, p) => SumParens(s) + ProductParens(p)
    case Minused(s, p) => SumParens(s) + ProductParens(p)
  }

  function ProductParens(p: Product): nat {
    match p
    case OneAtom(a) => AtomParens(a)
    case Timesed(p, a) => ProductParens(p) + AtomParens(a)
    case Divided(p, a) => ProductParens(p) + AtomParens(a)
  }

  function AtomParens(a: Atom): nat {
    match a
    case NumAtom(_) => 0
    case NameAtom(_) => 0
    case Parens(s) => 1 + SumParens(s)
    case Negated(a) => AtomParens(a)
  }

  lemma {:induction false} FewestInSum(s: Sum)
    ensures SumParens(ToSum(SumExpr(s))) <= SumParens(s)
    decreases s
  {
    match s
    case OneProduct(p) => FewestInProduct(p); LevelsClose(ProductExpr(p));
    case Plused(s', p) => FewestInSum(s'); FewestInProduct(p);
    case Minused(s', p) => FewestInSum(s'); FewestInProduct(p);
  }

  lemma {:induction false} FewestInProduct(p: Product)
    ensures ProductParens(ToProduct(ProductExpr(p))) <= ProductParens(p)
    decreases p
  {
    match p
    case OneAtom(a) => FewestInAtom(a); LevelsClose(AtomExpr(a));
    case Timesed(p', a) => FewestInProduct(p'); FewestInAtom(a);
    case Divided(p', a) => FewestInProduct(p'); FewestInAtom(a);
  }

  lemma {:induction false} FewestInAtom(a: Atom)
    ensures AtomParens(ToAtom(AtomExpr(a))) <= AtomParens(a)
    decreases a
  {
    match a
    case NumAtom(_) =>
    case NameAtom(_) =>
    case Parens(s) => FewestInSum(s); LevelsClose(SumExpr(s));
    case Negated(b) => FewestInAtom(b);
  }

  // A tighter level costs at most the one pair that turns the expression into an atom.
  lemma LevelsClose(e: Expr)
    ensures SumParens(ToSum(e)) <= ProductParens(ToProduct(e)) <= AtomParens(ToAtom(e)) <= SumParens(ToSum(e)) + 1
  {
  }

  // ---------- characters ----------

  predicate IsDigit(c: Byte) { 48 <= c <= 57 }

  predicate IsIdentStart(c: Byte) { (97 <= c <= 122) || (65 <= c <= 90) || c == 95 }

  predicate IsIdentChar(c: Byte) { IsIdentStart(c) || IsDigit(c) }

  // The end of the run of characters satisfying p.
  function DigitsEnd(s: seq<Byte>, i: nat): (j: nat)
    requires i <= |s|
    ensures i <= j <= |s| && (forall k | i <= k < j :: IsDigit(s[k])) && (j < |s| ==> !IsDigit(s[j]))
    decreases |s| - i
  {
    if i < |s| && IsDigit(s[i]) then DigitsEnd(s, i + 1) else i
  }

  function IdentEnd(s: seq<Byte>, i: nat): (j: nat)
    requires i <= |s|
    ensures i <= j <= |s| && (forall k | i <= k < j :: IsIdentChar(s[k])) && (j < |s| ==> !IsIdentChar(s[j]))
    decreases |s| - i
  {
    if i < |s| && IsIdentChar(s[i]) then IdentEnd(s, i + 1) else i
  }

  // The number a string of digits denotes.
  function Numeral(d: seq<Byte>): nat
    requires forall k | 0 <= k < |d| :: IsDigit(d[k])
  {
    if d == [] then 0
    else
      assert IsDigit(d[|d| - 1]);
      var c: nat := d[|d| - 1];
      Numeral(d[..|d| - 1]) * 10 + c - 48
  }

  function OperatorToken(c: Byte): Option<Token> {
    if c == 43 then Some(Plus) else if c == 45 then Some(Minus) else if c == 42 then Some(Star)
    else if c == 47 then Some(Slash) else if c == 40 then Some(LParen) else if c == 41 then Some(RParen) else None
  }

  // The tokens of the text from i on; None when a number overflows.
  function Lex(s: seq<Byte>, i: nat): (r: Option<seq<Token>>)
    requires i <= |s|
    decreases |s| - i
  {
    if i == |s| then Some([])
    else if OperatorToken(s[i]).Some? then Before(OperatorToken(s[i]).value, Lex(s, i + 1))
    else if IsDigit(s[i]) then
      var j := DigitsEnd(s, i + 1);
      if Numeral(s[i..j]) > I64_MAX then None else Before(Num(Numeral(s[i..j])), Lex(s, j))
    else if IsIdentStart(s[i]) then
      var j := IdentEnd(s, i + 1);
      Before(Ident(s[i..j]), Lex(s, j))
    else Lex(s, i + 1)
  }

  function Before(t: Token, r: Option<seq<Token>>): Option<seq<Token>> {
    if r.None? then None else Some([t] + r.value)
  }

  // ---------- spelling tokens ----------

  predicate Spellable(t: Token) {
    match t
    case Num(n) => n <= I64_MAX
    case Ident(name) => name != [] && IsIdentStart(name[0]) && forall k | 0 <= k < |name| :: IsIdentChar(name[k])
    case _ => true
  }

  function Decimal(n: nat): (d: seq<Byte>)
    ensures |d| > 0 && forall k | 0 <= k < |d| :: IsDigit(d[k])
  {
    if n < 10 then [48 + n] else Decimal(n / 10) + [48 + n % 10]
  }

  function SpellOne(t: Token): (s: seq<Byte>)
    ensures |s| > 0
  {
    match t
    case Num(n) => Decimal(n)
    case Ident(name) => if name == [] then [95] else name
    case Plus => [43]
    case Minus => [45]
    case Star => [42]
    case Slash => [47]
    case LParen => [40]
    case RParen => [41]
  }

  // The tokens' texts, each followed by a space.
  function Spell(ts: seq<Token>): seq<Byte> {
    if ts == [] then [] else SpellOne(ts[0]) + [32] + Spell(ts[1..])
  }

  lemma {:induction false} DecimalReads(n: nat)
    ensures Numeral(Decimal(n)) == n
  {
    if n >= 10 {
      DecimalReads(n / 10);
      var d := Decimal(n);
      assert d[..|d| - 1] == Decimal(n / 10);
    } else {
      assert Decimal(n)[..0] == [];
    }
  }

  lemma {:induction false} RunOfDigits(s: seq<Byte>, i: nat, j: nat)
    requires i <= j <= |s| && (forall k | i <= k < j :: IsDigit(s[k])) && (j < |s| ==> !IsDigit(s[j]))
    ensures DigitsEnd(s, i) == j
    decreases j - i
  {
    if i < j { RunOfDigits(s, i + 1, j); }
  }

  lemma {:induction false} RunOfIdent(s: seq<Byte>, i: nat, j: nat)
    requires i <= j <= |s| && (forall k | i <= k < j :: IsIdentChar(s[k])) && (j < |s| ==> !IsIdentChar(s[j]))
    ensures IdentEnd(s, i) == j
    decreases j - i
  {
    if i < j { RunOfIdent(s, i + 1, j); }
  }

  // Tokenizing what was spelled gives the tokens back.
  lemma {:induction false} SpellReads(s: seq<Byte>, i: nat, ts: seq<Token>)
    requires i <= |s| && s[i..] == Spell(ts) && forall k | 0 <= k < |ts| :: Spellable(ts[k])
    ensures Lex(s, i) == Some(ts)
    decreases |ts|
  {
    hide Lex, Spell, SpellOne, Spellable;
    if ts == [] {
      NothingSpelled(s, i);
    } else {
      var w := SpellOne(ts[0]);
      var j := i + |w|;
      SpellStep(ts);
      CutWord(s, i, w, Spell(ts[1..]));
      SpellReads(s, j + 1, ts[1..]);
      SkipsSpace(s, j);
      WordReads(s, i, j, ts[0]);
      assert [ts[0]] + ts[1..] == ts;
    }
  }

  lemma NothingSpelled(s: seq<Byte>, i: nat)
    requires i <= |s| && s[i..] == Spell([])
    ensures Lex(s, i) == Some([])
  {
    assert |s[i..]| == 0;
  }

  lemma SpellStep(ts: seq<Token>)
    requires ts != []
    ensures Spell(ts) == SpellOne(ts[0]) + [32] + Spell(ts[1..])
  {
  }

  lemma CutWord(s: seq<Byte>, i: nat, w: seq<Byte>, rest: seq<Byte>)
    requires i <= |s| && s[i..] == w + [32] + rest
    ensures var j := i + |w|; j < |s| && s[i..j] == w && s[j] == 32 && s[j + 1..] == rest
    ensures forall k | i <= k < i + |w| :: s[k] == w[k - i]
  {
    var t := s[i..];
    assert forall k | 0 <= k < |t| :: s[i + k] == t[k];
    assert t[..|w|] == w && t[|w|] == 32 && t[|w| + 1..] == rest;
  }

  lemma SkipsSpace(s: seq<Byte>, j: nat)
    requires j < |s| && s[j] == 32
    ensures Lex(s, j) == Lex(s, j + 1)
  {
  }

  lemma WordReads(s: seq<Byte>, i: nat, j: nat, t: Token)
    requires i < j < |s| && s[i..j] == SpellOne(t) && s[j] == 32 && Spellable(t)
    requires forall k | i <= k < j :: s[k] == SpellOne(t)[k - i]
    ensures Lex(s, i) == Before(t, Lex(s, j))
  {
    match t
    case Num(n) =>
      assert IsDigit(s[i]);
      RunOfDigits(s, i + 1, j);
      DecimalReads(n);
    case Ident(name) => RunOfIdent(s, i + 1, j);
    case _ =>
  }

  // ---------- expressions that can be written ----------

  predicate Writable(e: Expr) {
    match e
    case Lit(n) => n <= I64_MAX
    case Ref(name) => Spellable(Ident(name))
    case Neg(x) => Writable(x)
    case Add(l, r) => Writable(l) && Writable(r)
    case Sub(l, r) => Writable(l) && Writable(r)
    case Mul(l, r) => Writable(l) && Writable(r)
    case Div(l, r) => Writable(l) && Writable(r)
  }

  ghost predicate AllSpellable(ts: seq<Token>) {
    forall k | 0 <= k < |ts| :: Spellable(ts[k])
  }

  lemma SpellableJoin(t: seq<Token>, u: seq<Token>)
    requires AllSpellable(t) && AllSpellable(u)
    ensures AllSpellable(t + u)
  {
  }

  lemma SpellableOne(t: Token)
    requires Spellable(t)
    ensures AllSpellable([t])
  {
  }

  lemma SpellableBin(t: seq<Token>, op: Token, u: seq<Token>)
    requires AllSpellable(t) && AllSpellable(u) && Spellable(op)
    ensures AllSpellable(t + [op] + u)
  {
    SpellableOne(op);
    SpellableJoin(t, [op]);
    SpellableJoin(t + [op], u);
  }

  lemma SpellableParens(t: seq<Token>)
    requires AllSpellable(t)
    ensures AllSpellable([LParen] + t + [RParen])
  {
    SpellableOne(LParen);
    SpellableOne(RParen);
    SpellableJoin([LParen], t);
    SpellableJoin([LParen] + t, [RParen]);
  }

  lemma {:induction false} TokensSpellable(e: Expr)
    requires Writable(e)
    ensures AllSpellable(SumTokens(ToSum(e))) && AllSpellable(ProductTokens(ToProduct(e)))
            && AllSpellable(AtomTokens(ToAtom(e)))
  {
    hide ToSum, ToProduct, ToAtom, AllSpellable;
    Levels(e);
    match e
    case Add(l, r) =>
      TokensSpellable(l); TokensSpellable(r);
      SpellableBin(SumTokens(ToSum(l)), Plus, ProductTokens(ToProduct(r)));
      SpellableParens(SumTokens(ToSum(e)));
    case Sub(l, r) =>
      TokensSpellable(l); TokensSpellable(r);
      SpellableBin(SumTokens(ToSum(l)), Minus, ProductTokens(ToProduct(r)));
      SpellableParens(SumTokens(ToSum(e)));
    case Mul(l, r) =>
      TokensSpellable(l); TokensSpellable(r);
      SpellableBin(ProductTokens(ToProduct(l)), Star, AtomTokens(ToAtom(r)));
      assert SumTokens(ToSum(e)) == ProductTokens(ToProduct(e));
      SpellableParens(SumTokens(ToSum(e)));
    case Div(l, r) =>
      TokensSpellable(l); TokensSpellable(r);
      SpellableBin(ProductTokens(ToProduct(l)), Slash, AtomTokens(ToAtom(r)));
      assert SumTokens(ToSum(e)) == ProductTokens(ToProduct(e));
      SpellableParens(SumTokens(ToSum(e)));
    case Neg(x) =>
      TokensSpellable(x);
      SpellableOne(Minus);
      SpellableJoin([Minus], AtomTokens(ToAtom(x)));
      assert ProductTokens(ToProduct(e)) == AtomTokens(ToAtom(e)) == SumTokens(ToSum(e));
    case Lit(n) =>
      SpellableOne(Num(n));
      assert ProductTokens(ToProduct(e)) == AtomTokens(ToAtom(e)) == SumTokens(ToSum(e));
    case Ref(name) =>
      SpellableOne(Ident(name));
      assert ProductTokens(ToProduct(e)) == AtomTokens(ToAtom(e)) == SumTokens(ToSum(e));
  }
}
