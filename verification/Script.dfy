// The script interpreter: the tokenizer's loop, the recursive-descent evaluator
// with its moving position and error flag, and the variable table.  Arithmetic
// is the checked 64-bit arithmetic of the default build, where overflow panics.
module Script {
  import opened Wrappers
  import opened Bits
  import opened ScriptGrammar
  import opened ScriptPrinter
  import opened ScriptRun
  import opened ScriptFaults

  datatype Var = Var(name: seq<Byte>, value: int)

  // The table as a map; of several entries for a name the first is the one found.
  ghost function VarMap(vars: seq<Var>): map<seq<Byte>, int> {
    if vars == [] then map[] else VarMap(vars[1..])[vars[0].name := vars[0].value]
  }

  lemma {:induction false} FirstEntry(vars: seq<Var>, i: nat)
    requires i < |vars| && forall j | 0 <= j < i :: vars[j].name != vars[i].name
    ensures vars[i].name in VarMap(vars) && VarMap(vars)[vars[i].name] == vars[i].value
    decreases |vars|
  {
    if i > 0 {
      assert vars[1..][i - 1] == vars[i];
      FirstEntry(vars[1..], i - 1);
    }
  }

  lemma {:induction false} NoEntry(vars: seq<Var>, name: seq<Byte>)
    requires forall j | 0 <= j < |vars| :: vars[j].name != name
    ensures name !in VarMap(vars)
    decreases |vars|
  {
    if vars != [] { NoEntry(vars[1..], name); }
  }

  lemma {:induction false} UpdateEntry(vars: seq<Var>, i: nat, value: int)
    requires i < |vars| && forall j | 0 <= j < i :: vars[j].name != vars[i].name
    ensures VarMap(vars[i := Var(vars[i].name, value)]) == VarMap(vars)[vars[i].name := value]
    decreases |vars|
  {
    var vars' := vars[i := Var(vars[i].name, value)];
    if i > 0 {
      assert vars'[1..] == vars[1..][i - 1 := Var(vars[i].name, value)];
      UpdateEntry(vars[1..], i - 1, value);
    } else {
      assert vars'[1..] == vars[1..];
    }
  }

  lemma {:induction false} AppendEntry(vars: seq<Var>, name: seq<Byte>, value: int)
    requires forall j | 0 <= j < |vars| :: vars[j].name != name
    ensures VarMap(vars + [Var(name, value)]) == VarMap(vars)[name := value]
    decreases |vars|
  {
    if vars != [] {
      assert (vars + [Var(name, value)])[1..] == vars[1..] + [Var(name, value)];
      AppendEntry(vars[1..], name, value);
    } else {
      assert (vars + [Var(name, value)])[1..] == [];
    }
  }

  lemma {:induction false} NumeralGrows(d: seq<Byte>, k: nat)
    requires k <= |d| && forall i | 0 <= i < |d| :: IsDigit(d[i])
    ensures Numeral(d[..k]) <= Numeral(d)
    decreases |d|
  {
    if k < |d| {
      assert d[..|d| - 1][..k] == d[..k];
      NumeralGrows(d[..|d| - 1], k);
    } else {
      assert d[..k] == d;
    }
  }

  // `tokenize`: the tokens scanned in the text; None, when there are none such, is the panic of a number
  // that leaves the 64-bit range.
  method Tokenize(s: seq<Byte>) returns (r: Option<seq<Token>>)
    ensures r == Lex(s, 0)
    ensures forall ts :: r == Some(ts) <==> exists at :: Scanned(s, 0, ts, at)
  {
    hide Lex, Joined, Scanned;
    forall ts ensures Lex(s, 0) == Some(ts) <==> exists at :: Scanned(s, 0, ts, at) { LexIsScan(s, ts); }
    var tokens: seq<Token> := [];
    var i := 0;
    NothingJoined(Lex(s, 0));
    while i < |s|
      invariant i <= |s|
      invariant Lex(s, 0) == Joined(tokens, Lex(s, i))
      decreases |s| - i
    {
      var start := i;
      ghost var before := tokens;
      var c := s[i];
      LexStep(s, i);
      if OperatorToken(c).Some? {
        tokens := tokens + [OperatorToken(c).value];
        i := i + 1;
      } else if IsDigit(c) {
        var n;
        n, i := ReadNumber(s, start);
        if n.None? {
          OverflowJoined(before);
          return None;
        }
        tokens := tokens + [Num(n.value)];
      } else if IsIdentStart(c) {
        i := ReadName(s, start);
        tokens := tokens + [Ident(s[start..i])];
      } else {
        i := i + 1;
      }
      JoinStep(s, before, tokens, start, i);
    }
    LexEnds(s, tokens);
    return Some(tokens);
  }

  // "read the whole number": its digits accumulated from the left.
  method ReadNumber(s: seq<Byte>, start: nat) returns (n: Option<nat>, i: nat)
    requires start < |s| && IsDigit(s[start])
    ensures n.None? ==> Lex(s, start).None?
    ensures n.Some? ==> i == DigitsEnd(s, start + 1) && n.value == Numeral(s[start..i]) <= I64_MAX
  {
    hide Lex;
    var v: nat := 0;
    i := start;
    while i < |s| && IsDigit(s[i])
      invariant start <= i <= |s| && (i == start ==> v == 0) && forall k | start <= k < i :: IsDigit(s[k])
      invariant v == Numeral(s[start..i]) <= I64_MAX
    {
      assert s[start..i + 1][..i - start] == s[start..i];
      if v * 10 + (s[i] as int - 48) > I64_MAX {
        DigitsOverflow(s, start, i + 1);
        return None, i;
      }
      v := v * 10 + (s[i] as int - 48);
      i := i + 1;
    }
    RunOfDigits(s, start + 1, i);
    return Some(v), i;
  }

  // "read the whole variable name".
  method ReadName(s: seq<Byte>, start: nat) returns (i: nat)
    requires start < |s| && IsIdentStart(s[start])
    ensures i == IdentEnd(s, start + 1)
  {
    i := start;
    while i < |s| && IsIdentChar(s[i])
      invariant start <= i <= |s| && forall k | start <= k < i :: IsIdentChar(s[k])
    {
      i := i + 1;
    }
    RunOfIdent(s, start + 1, i);
  }

  // Where each token stands: words in order, each as long as it can be, and between them only
  // characters that mean nothing.
  ghost predicate Scanned(s: seq<Byte>, i: nat, ts: seq<Token>, at: seq<(nat, nat)>) {
    && |at| == |ts| && i <= |s|
    && (forall k | 0 <= k < |ts| :: i <= at[k].0 < at[k].1 <= |s| && IsWord(s, at[k].0, at[k].1, ts[k]))
    && (forall k, l | 0 <= k < l < |ts| :: at[k].1 <= at[l].0)
    && forall x | i <= x < |s| && Meaningful(s[x]) :: exists k :: 0 <= k < |ts| && at[k].0 <= x < at[k].1
  }

  predicate Meaningful(c: Byte) { OperatorToken(c).Some? || IsDigit(c) || IsIdentStart(c) }

  // s[lo..hi] is the whole word of token t.
  ghost predicate IsWord(s: seq<Byte>, lo: nat, hi: nat, t: Token)
    requires lo < hi <= |s|
  {
    match t
    case Num(n) =>
      (forall k | lo <= k < hi :: IsDigit(s[k])) && (hi < |s| ==> !IsDigit(s[hi])) && Numeral(s[lo..hi]) == n <= I64_MAX
    case Ident(name) =>
      IsIdentStart(s[lo]) && (forall k | lo <= k < hi :: IsIdentChar(s[k])) && (hi < |s| ==> !IsIdentChar(s[hi]))
      && name == s[lo..hi]
    case _ => hi == lo + 1 && OperatorToken(s[lo]) == Some(t)
  }

  // The word at a meaningful character, and its end.
  lemma FirstWord(s: seq<Byte>, i: nat)
    requires i < |s| && Meaningful(s[i]) && Lex(s, i).Some?
    ensures var ts := Lex(s, i).value;
            ts != [] && exists j: nat :: i < j <= |s| && IsWord(s, i, j, ts[0]) && Lex(s, j) == Some(ts[1..])
  {
    var j := if OperatorToken(s[i]).Some? then i + 1 else if IsDigit(s[i]) then DigitsEnd(s, i + 1)
        else IdentEnd(s, i + 1);
    assert Lex(s, j).Some? && Lex(s, i).value[1..] == Lex(s, j).value;
    assert IsWord(s, i, j, Lex(s, i).value[0]);
  }

  // The tokens found are scanned somewhere.
  lemma {:induction false} LexScans(s: seq<Byte>, i: nat) returns (at: seq<(nat, nat)>)
    requires i <= |s| && Lex(s, i).Some?
    ensures Scanned(s, i, Lex(s, i).value, at)
    decreases |s| - i
  {
    if i == |s| {
      at := [];
    } else if !Meaningful(s[i]) {
      at := LexScans(s, i + 1);
    } else {
      FirstWord(s, i);
      var ts := Lex(s, i).value;
      var j: nat :| i < j <= |s| && IsWord(s, i, j, ts[0]) && Lex(s, j) == Some(ts[1..]);
      hide Lex, IsWord;
      var more := LexScans(s, j);
      at := [(i, j)] + more;
      ScanMore(s, i, j, ts, more);
    }
  }

  lemma ScanMore(s: seq<Byte>, i: nat, j: nat, ts: seq<Token>, more: seq<(nat, nat)>)
    requires i < j <= |s| && ts != [] && IsWord(s, i, j, ts[0]) && Scanned(s, j, ts[1..], more)
    ensures Scanned(s, i, ts, [(i, j)] + more)
  {
    hide IsWord, Meaningful;
    var at := [(i, j)] + more;
    assert forall k | 0 < k < |ts| :: at[k] == more[k - 1] && ts[k] == ts[1..][k - 1];
    forall x | i <= x < |s| && Meaningful(s[x]) ensures exists k :: 0 <= k < |ts| && at[k].0 <= x < at[k].1 {
      if x < j {
        assert at[0].0 <= x < at[0].1;
      } else {
        var k :| 0 <= k < |ts| - 1 && more[k].0 <= x < more[k].1;
        assert at[k + 1] == more[k];
      }
    }
  }

  // And whatever is scanned is what is found, so the tokens of a text are determined.
  lemma {:induction false} ScannedIsLexed(s: seq<Byte>, i: nat, ts: seq<Token>, at: seq<(nat, nat)>)
    requires Scanned(s, i, ts, at)
    ensures Lex(s, i) == Some(ts)
    decreases |s| - i
  {
    if i == |s| {
      assert ts == [];
    } else if !Meaningful(s[i]) {
      NotHere(s, i, ts, at);
      ScannedIsLexed(s, i + 1, ts, at);
    } else {
      WordHere(s, i, ts, at);
      ScannedIsLexed(s, at[0].1, ts[1..], at[1..]);
      WordIsLexed(s, i, at[0].1, ts[0]);
      assert ts == [ts[0]] + ts[1..];
    }
  }

  lemma NotHere(s: seq<Byte>, i: nat, ts: seq<Token>, at: seq<(nat, nat)>)
    requires Scanned(s, i, ts, at) && i < |s| && !Meaningful(s[i])
    ensures Scanned(s, i + 1, ts, at)
  {
    forall k | 0 <= k < |ts| ensures i < at[k].0 { assert IsWord(s, at[k].0, at[k].1, ts[k]); }
  }

  lemma WordHere(s: seq<Byte>, i: nat, ts: seq<Token>, at: seq<(nat, nat)>)
    requires Scanned(s, i, ts, at) && i < |s| && Meaningful(s[i])
    ensures ts != [] && at[0].0 == i < at[0].1 <= |s| && IsWord(s, i, at[0].1, ts[0])
    ensures Scanned(s, at[0].1, ts[1..], at[1..])
  {
    hide IsWord, Meaningful;
    var k :| 0 <= k < |ts| && at[k].0 <= i < at[k].1;
    assert k == 0;
    forall x | at[0].1 <= x < |s| && Meaningful(s[x])
      ensures exists k :: 0 <= k < |ts[1..]| && at[1..][k].0 <= x < at[1..][k].1
    {
      var k :| 0 <= k < |ts| && at[k].0 <= x < at[k].1;
      assert k > 0 && at[1..][k - 1] == at[k];
    }
  }

  lemma WordIsLexed(s: seq<Byte>, i: nat, j: nat, t: Token)
    requires i < j <= |s| && IsWord(s, i, j, t)
    ensures Lex(s, i) == Before(t, Lex(s, j))
  {
    if t.Num? {
      RunOfDigits(s, i + 1, j);
    } else if t.Ident? {
      RunOfIdent(s, i + 1, j);
    }
  }

  // The tokens of a text are those scanned in it; there are none when a number is too large.
  lemma LexIsScan(s: seq<Byte>, ts: seq<Token>)
    ensures Lex(s, 0) == Some(ts) <==> exists at :: Scanned(s, 0, ts, at)
  {
    hide Lex, Scanned;
    if Lex(s, 0) == Some(ts) { var at := LexScans(s, 0); }
    if at :| Scanned(s, 0, ts, at) { ScannedIsLexed(s, 0, ts, at); }
  }

  lemma LexStep(s: seq<Byte>, i: nat)
    requires i < |s|
    ensures var c := s[i]; var op := OperatorToken(c);
            && (op.Some? ==> Lex(s, i) == Before(op.value, Lex(s, i + 1)))
            && (op.None? && IsDigit(c) ==> var j := DigitsEnd(s, i + 1);
                  Numeral(s[i..j]) <= I64_MAX ==> Lex(s, i) == Before(Num(Numeral(s[i..j])), Lex(s, j)))
            && (op.None? && !IsDigit(c) && IsIdentStart(c) ==> var j := IdentEnd(s, i + 1);
                  Lex(s, i) == Before(Ident(s[i..j]), Lex(s, j)))
            && (op.None? && !IsDigit(c) && !IsIdentStart(c) ==> Lex(s, i) == Lex(s, i + 1))
  {
  }

  lemma LexEnds(s: seq<Byte>, t: seq<Token>)
    ensures Joined(t, Lex(s, |s|)) == Some(t)
  {
    assert t + [] == t;
  }

  lemma NothingJoined(r: Option<seq<Token>>)
    ensures Joined([], r) == r
  {
    if r.Some? { assert [] + r.value == r.value; }
  }

  lemma OverflowJoined(t: seq<Token>)
    ensures Joined(t, None).None?
  {
  }

  function Joined(t: seq<Token>, r: Option<seq<Token>>): Option<seq<Token>> {
    if r.None? then None else Some(t + r.value)
  }

  lemma JoinStep(s: seq<Byte>, t: seq<Token>, t': seq<Token>, i: nat, j: nat)
    requires i < j <= |s|
    requires (t' == t && Lex(s, i) == Lex(s, j))
             || (t < t' && |t'| == |t| + 1 && Lex(s, i) == Before(t'[|t|], Lex(s, j)))
    ensures Joined(t, Lex(s, i)) == Joined(t', Lex(s, j))
  {
    if t != t' && Lex(s, j).Some? {
      assert t' == t + [t'[|t|]];
      assert t + ([t'[|t|]] + Lex(s, j).value) == t' + Lex(s, j).value;
    }
  }

  lemma DigitsOverflow(s: seq<Byte>, start: nat, i: nat)
    requires start < i <= |s| && (forall k | start <= k < i :: IsDigit(s[k])) && Numeral(s[start..i]) > I64_MAX
    ensures Lex(s, start).None?
  {
    var j := DigitsEnd(s, start + 1);
    assert forall k | start <= k < j :: IsDigit(s[k]);
    assert j >= i;
    assert s[start..j][..i - start] == s[start..i];
    NumeralGrows(s[start..j], i - start);
  }

  // ---------- the interpreter ----------

  class Interp {
    var vars: seq<Var>
    var error: Option<ScriptError>

    constructor ()
      ensures vars == [] && error == None
    {
      vars, error := [], None;
    }

    ghost function Names(): map<seq<Byte>, int>
      reads `vars
    {
      VarMap(vars)
    }

    // `get_var`.
    method GetVar(name: seq<Byte>) returns (r: Option<int>)
      ensures r == if name in Names() then Some(Names()[name]) else None
    {
      for i := 0 to |vars|
        invariant forall j | 0 <= j < i :: vars[j].name != name
      {
        if vars[i].name == name {
          FirstEntry(vars, i);
          return Some(vars[i].value);
        }
      }
      NoEntry(vars, name);
      return None;
    }

    // `set_var`.
    method SetVar(name: seq<Byte>, value: int)
      modifies `vars
      ensures Names() == old(Names())[name := value]
    {
      for i := 0 to |vars|
        invariant vars == old(vars)
        invariant forall j | 0 <= j < i :: vars[j].name != name
      {
        if vars[i].name == name {
          UpdateEntry(vars, i, value);
          vars := vars[i := Var(name, value)];
          return;
        }
      }
      AppendEntry(vars, name, value);
      vars := vars + [Var(name, value)];
    }

    // What a method of the parser leaves behind is what the run comes to.
    ghost predicate Leaves(run: Ran, r: Option<int>, pos: nat)
      reads this
    {
      match run
      case Panic => r.None?
      case Ran(v, q, e) => r == Some(v) && pos == q && error == e
    }

    // `parse_atom`; r is None when arithmetic panicked.
    method ParseAtom(ts: seq<Token>, start: nat) returns (r: Option<int>, pos: nat)
      requires start <= |ts|
      modifies `error
      ensures start <= pos <= |ts| && Leaves(RunAtom(ts, start, Names(), old(error)), r, pos)
      decreases |ts| - start, 0
    {
      hide RunSum, VarMap;
      pos := start;
      if pos >= |ts| {
        error := Some(ExpectedValue);
        return Some(0), pos;
      }
      match ts[pos] {
        case Num(n) =>
          return Checked(n), pos + 1;
        case Ident(name) =>
          var v := GetVar(name);
          if v.None? {
            error := Some(UndefinedVariable);
            return Some(0), pos + 1;
          }
          return v, pos + 1;
        case LParen =>
          r, pos := ParseAddSub(ts, pos + 1);
          if r.None? { return; }
          if pos < |ts| && ts[pos] == RParen {
            pos := pos + 1;
          } else {
            error := Some(MissingParen);
          }
        case Minus =>
          r, pos := ParseAtom(ts, pos + 1);
          if r.None? { return; }
          r := Checked(-r.value);
        case _ =>
          error := Some(UnexpectedToken);
          return Some(0), pos;
      }
    }

    // `parse_mul_div`.
    method ParseMulDiv(ts: seq<Token>, start: nat) returns (r: Option<int>, pos: nat)
      requires start <= |ts|
      modifies `error
      ensures start <= pos <= |ts| && Leaves(RunProduct(ts, start, Names(), old(error)), r, pos)
      decreases |ts| - start, 1
    {
      hide RunAtom, VarMap, TruncDiv, InRange;
      ghost var vars0, e0 := Names(), old(error);
      var left;
      left, pos := ParseAtom(ts, start);
      if left.None? { return None, pos; }
      while pos < |ts|
        invariant start <= pos <= |ts| && left.Some? && Names() == vars0
        invariant RunProduct(ts, start, vars0, e0) == RunProductRest(ts, pos, left.value, vars0, error)
        decreases |ts| - pos
      {
        if ts[pos] != Star && ts[pos] != Slash { break; }
        var op := ts[pos];
        var a;
        a, pos := ParseAtom(ts, pos + 1);
        if a.None? { return None, pos; }
        if op == Slash && a.value == 0 {
          error := Some(DivisionByZero);
          return Some(0), pos;
        }
        left := if op == Star then Checked(left.value * a.value) else Checked(TruncDiv(left.value, a.value));
        if left.None? { return None, pos; }
      }
      return left, pos;
    }

    // `parse_add_sub`.
    method ParseAddSub(ts: seq<Token>, start: nat) returns (r: Option<int>, pos: nat)
      requires start <= |ts|
      modifies `error
      ensures start <= pos <= |ts| && Leaves(RunSum(ts, start, Names(), old(error)), r, pos)
      decreases |ts| - start, 2
    {
      hide RunProduct, VarMap, InRange;
      ghost var vars0, e0 := Names(), old(error);
      var left;
      left, pos := ParseMulDiv(ts, start);
      if left.None? { return None, pos; }
      while pos < |ts|
        invariant start <= pos <= |ts| && left.Some? && Names() == vars0
        invariant RunSum(ts, start, vars0, e0) == RunSumRest(ts, pos, left.value, vars0, error)
        decreases |ts| - pos
      {
        if ts[pos] != Plus && ts[pos] != Minus { break; }
        var op := ts[pos];
        var p;
        p, pos := ParseMulDiv(ts, pos + 1);
        if p.None? { return None, pos; }
        left := if op == Plus then Checked(left.value + p.value) else Checked(left.value - p.value);
        if left.None? { return None, pos; }
      }
      return left, pos;
    }

    // `eval`.
    method Eval(expr: seq<Byte>) returns (r: Option<int>)
      requires error.None?
      modifies `error
      ensures Outcome(r, error) == Calculated(expr, Names())
      ensures forall v :: r == Some(v) && error.None? <==> Denotes(expr, Names(), v)
    {
      hide RunSum, Lex, VarMap, SumTokens, Denotes;
      CalculatedMeans(expr, Names());
      var tokens := Tokenize(expr);
      if tokens.None? { return None; }
      if tokens.value == [] {
        error := Some(EmptyExpression);
        return Some(0);
      }
      var pos;
      r, pos := ParseAddSub(tokens.value, 0);
      if r.None? { return; }
      if pos != |tokens.value| && error.None? {
        error := Some(UnexpectedTokens);
      }
    }
  }

  function Outcome(r: Option<int>, e: Option<ScriptError>): CalcResult {
    if r.None? then CalcPanic else if e.Some? then CalcErr(e.value) else CalcOk(r.value)
  }

  // The outcome for any text: of a panic, an error and a value exactly one.
  ghost function Calculated(expr: seq<Byte>, vars: map<seq<Byte>, int>): CalcResult {
    var ts := Lex(expr, 0);
    if ts.None? then CalcPanic else Answer(ts.value, vars)
  }

  // The text is one complete expression of the grammar, and that expression has value v.
  ghost predicate Denotes(expr: seq<Byte>, vars: map<seq<Byte>, int>, v: int) {
    exists s :: Lex(expr, 0) == Some(SumTokens(s)) && Value(SumExpr(s), vars) == Some(v)
  }

  lemma NothingDenoted(expr: seq<Byte>, vars: map<seq<Byte>, int>)
    requires Lex(expr, 0).None?
    ensures forall v :: !Denotes(expr, vars, v)
  {
  }

  lemma DenotesByParsing(expr: seq<Byte>, ts: seq<Token>, vars: map<seq<Byte>, int>)
    requires Lex(expr, 0) == Some(ts)
    ensures var p := SumAt(ts, 0);
            forall v :: Denotes(expr, vars, v) <==> p.Got? && p.pos == |ts| && Value(SumExpr(p.tree), vars) == Some(v)
    ensures ts == [] ==> forall v :: !Denotes(expr, vars, v)
  {
    hide Value, SumAt, Lex;
    var p := SumAt(ts, 0);
    forall v
      ensures Denotes(expr, vars, v) <==> p.Got? && p.pos == |ts| && Value(SumExpr(p.tree), vars) == Some(v)
    {
      if s :| Lex(expr, 0) == Some(SumTokens(s)) && Value(SumExpr(s), vars) == Some(v) {
        ParsesExactly(ts, s);
      }
      if p.Got? && p.pos == |ts| && Value(SumExpr(p.tree), vars) == Some(v) {
        ParsesExactly(ts, p.tree);
      }
    }
  }

  // ---------- the calculator ----------

  // On texts of the grammar the outcome is that of the expression.  A complete one has a value exactly
  // when it denotes it; without a zero divisor it panics exactly when it overflows, and is an undefined
  // variable exactly when it names one and does not; with one it has no value.
  lemma CalculatedMeans(expr: seq<Byte>, vars: map<seq<Byte>, int>)
    ensures forall v :: Calculated(expr, vars) == CalcOk(v) <==> Denotes(expr, vars, v)
    ensures forall s | Lex(expr, 0) == Some(SumTokens(s)) ::
              var f, r := FateOf(SumExpr(s), vars), Calculated(expr, vars);
              && (!f.ZeroDivisor? ==> (r == CalcPanic <==> f.Overflowed?))
              && (!f.ZeroDivisor? ==> (r == CalcErr(UndefinedVariable) <==> f.Fine? && !f.named))
              && (f.ZeroDivisor? ==> !r.CalcOk?)
  {
    hide FateOf, SumAt, Lex, SumTokens, RunSum, Denotes;
    var tokens := Lex(expr, 0);
    if tokens.None? {
      NothingDenoted(expr, vars);
    } else {
      var ts := tokens.value;
      DenotesByParsing(expr, ts, vars);
      SumReported(ts, 0, vars, None);
      var p := SumAt(ts, 0);
      if p.Got? { FateIsValue(SumExpr(p.tree), vars); }
      forall s | Lex(expr, 0) == Some(SumTokens(s)) ensures p == Got(s, |ts|) && ts != [] { ParsesExactly(ts, s); }
    }
  }

  // On any text.  It panics only at a number or a result outside 64 bits, so never when its operands
  // are small; no error is given without its cause among the tokens, and the two errors about the text
  // as a whole are given exactly where they belong.
  lemma CalculatedAnywhere(expr: seq<Byte>, vars: map<seq<Byte>, int>)
    ensures Calculated(expr, vars) == CalcPanic ==>
              Lex(expr, 0).None? || exists x :: Made(x, Lex(expr, 0).value) && Plain(x, vars).None?
    ensures Lex(expr, 0).Some? && Weights(Lex(expr, 0).value, vars) <= I64_MAX + 1 ==>
              Calculated(expr, vars) != CalcPanic
    ensures Calculated(expr, vars) == CalcErr(EmptyExpression) <==> Lex(expr, 0) == Some([])
    ensures Calculated(expr, vars) == CalcErr(UnexpectedTokens) <==>
              Lex(expr, 0).Some? && exists s :: LeftOver(Lex(expr, 0).value, s, vars)
    ensures forall x :: Calculated(expr, vars) == CalcErr(x) && x != EmptyExpression && x != UnexpectedTokens ==>
              Lex(expr, 0).Some? && Cause(x, Lex(expr, 0).value, vars)
  {
    hide Lex, Made, Plain, Weights, LeftOver, Cause, Answer;
    var tokens := Lex(expr, 0);
    if tokens.Some? {
      ErrorMeans(tokens.value, vars);
      if Calculated(expr, vars) == CalcPanic { PanicMeans(tokens.value, vars); }
      if Weights(tokens.value, vars) <= I64_MAX + 1 { SmallNeverPanics(tokens.value, vars); }
    }
  }

  // `eval_expr`, with no name defined.
  method EvalExpr(expr: seq<Byte>) returns (r: CalcResult)
    ensures r == Calculated(expr, map[])
    ensures forall v :: r == CalcOk(v) <==> Denotes(expr, map[], v)
    ensures forall s | Lex(expr, 0) == Some(SumTokens(s)) && !FateOf(SumExpr(s), map[]).ZeroDivisor? ::
              && (r == CalcPanic <==> FateOf(SumExpr(s), map[]).Overflowed?)
              && (r == CalcErr(UndefinedVariable) <==>
                  FateOf(SumExpr(s), map[]).Fine? && !FateOf(SumExpr(s), map[]).named)
    ensures r == if Lex(expr, 0).None? then CalcPanic else Answer(Lex(expr, 0).value, map[])
    ensures r == CalcPanic && Lex(expr, 0).Some? ==>
              exists x :: Made(x, Lex(expr, 0).value) && Plain(x, map[]).None?
  {
    hide FateOf, Lex, Denotes, SumTokens, Answer, Made, Plain;
    CalculatedMeans(expr, map[]);
    CalculatedAnywhere(expr, map[]);
    var interp := new Interp();
    var val := interp.Eval(expr);
    if val.None? { return CalcPanic; }
    if interp.error.Some? { return CalcErr(interp.error.value); }
    return CalcOk(val.value);
  }

  // Any expression written with the fewest parentheses denotes exactly its value.
  lemma WrittenDenotes(e: Expr, vars: map<seq<Byte>, int>, v: int)
    requires Writable(e)
    ensures Denotes(Spell(SumTokens(ToSum(e))), vars, v) <==> Value(e, vars) == Some(v)
  {
    hide Value, Lex, Spell, SumTokens;
    var ts := SumTokens(ToSum(e));
    var text := Spell(ts);
    assert text[0..] == text;
    TokensSpellable(e);
    SpellReads(text, 0, ts);
    PrintsExpr(e);
    if s :| Lex(text, 0) == Some(SumTokens(s)) && Value(SumExpr(s), vars) == Some(v) {
      Unambiguous(s, ToSum(e));
    }
  }
}
