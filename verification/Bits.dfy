// Bitwise arithmetic on machine words held as natural numbers.
//
// The kernel and the installer work on u8 and u64 words with `&`, `|`, `!` and
// shifts.  Words are naturals here, `And` and `Or` are defined bit by bit, and
// the lemmas connect them to division and remainder.
module Bits {

  type Byte = b: nat | b < 256

  function Pow2(n: nat): (r: nat)
    ensures r >= 1
  {
    if n == 0 then 1 else 2 * Pow2(n - 1)
  }

  function And(a: nat, b: nat): nat {
    if a == 0 || b == 0 then 0
    else (if a % 2 == 1 && b % 2 == 1 then 1 else 0) + 2 * And(a / 2, b / 2)
  }

  function Or(a: nat, b: nat): nat {
    if a == 0 then b
    else if b == 0 then a
    else (if a % 2 == 1 || b % 2 == 1 then 1 else 0) + 2 * Or(a / 2, b / 2)
  }

  // `!x` on a word of `width` bits.
  function Not(width: nat, x: nat): nat
    requires x < Pow2(width)
  {
    Pow2(width) - 1 - x
  }

  predicate Bit(a: nat, i: nat)
    decreases i
  {
    if i == 0 then a % 2 == 1 else Bit(a / 2, i - 1)
  }

  lemma AndHalves(a: nat, b: nat)
    ensures And(a, b) / 2 == And(a / 2, b / 2)
    ensures And(a, b) % 2 == 1 <==> a % 2 == 1 && b % 2 == 1
  {
  }

  lemma OrHalves(a: nat, b: nat)
    ensures Or(a, b) / 2 == Or(a / 2, b / 2)
    ensures Or(a, b) % 2 == 1 <==> a % 2 == 1 || b % 2 == 1
  {
  }

  lemma OrZero(a: nat)
    ensures Or(a, 0) == a && Or(0, a) == a
  {
  }

  lemma {:induction false} AndBit(a: nat, b: nat, i: nat)
    ensures Bit(And(a, b), i) <==> Bit(a, i) && Bit(b, i)
    decreases i
  {
    hide And;
    AndHalves(a, b);
    if i > 0 { AndBit(a / 2, b / 2, i - 1); }
  }

  lemma {:induction false} OrBit(a: nat, b: nat, i: nat)
    ensures Bit(Or(a, b), i) <==> Bit(a, i) || Bit(b, i)
    decreases i
  {
    hide Or;
    OrHalves(a, b);
    if i > 0 { OrBit(a / 2, b / 2, i - 1); }
  }

  lemma {:induction false} ZeroBit(i: nat)
    ensures !Bit(0, i)
    decreases i
  {
    if i > 0 { ZeroBit(i - 1); }
  }

  // 1 << k has exactly bit k.
  lemma {:induction false} ShiftedOneBit(k: nat, i: nat)
    ensures Bit(Pow2(k), i) <==> i == k
    decreases i
  {
    if k == 0 {
      if i > 0 { ZeroBit(i - 1); }
    } else if i > 0 {
      assert Pow2(k) / 2 == Pow2(k - 1);
      ShiftedOneBit(k - 1, i - 1);
    }
  }

  lemma {:induction false} NotBit(width: nat, x: nat, i: nat)
    requires x < Pow2(width) && i < width
    ensures Bit(Not(width, x), i) <==> !Bit(x, i)
    decreases i
  {
    var q := Pow2(width - 1);
    NotHalf(q, x);
    if i > 0 {
      NotBit(width - 1, x / 2, i - 1);
    }
  }

  lemma NotHalf(q: nat, x: nat)
    requires x < 2 * q
    ensures (2 * q - 1 - x) / 2 == q - 1 - x / 2 && (2 * q - 1 - x) % 2 == 1 - x % 2
  {
  }

  lemma {:induction false} AndBound(a: nat, b: nat)
    ensures And(a, b) <= a && And(a, b) <= b
  {
    if a != 0 && b != 0 { AndBound(a / 2, b / 2); }
  }

  lemma {:induction false} OrBound(a: nat, b: nat, width: nat)
    requires a < Pow2(width) && b < Pow2(width)
    ensures Or(a, b) < Pow2(width)
  {
    if a != 0 && b != 0 { OrBound(a / 2, b / 2, width - 1); }
  }

  // Only the zero word has no bit set.
  lemma {:induction false} NonZeroHasBit(a: nat, width: nat) returns (i: nat)
    requires 0 < a < Pow2(width)
    ensures i < width && Bit(a, i)
  {
    if a % 2 == 1 {
      i := 0;
    } else {
      i := NonZeroHasBit(a / 2, width - 1);
      i := i + 1;
    }
  }

  // `a & (1 << k)` is non-zero exactly when bit k of a is set.
  lemma TestBit(a: nat, k: nat)
    ensures And(a, Pow2(k)) != 0 <==> Bit(a, k)
  {
    var t := And(a, Pow2(k));
    AndBit(a, Pow2(k), k);
    ShiftedOneBit(k, k);
    if t == 0 {
      ZeroBit(k);
    } else {
      AndBound(a, Pow2(k));
      assert t < Pow2(k + 1);
      var i := NonZeroHasBit(t, k + 1);
      AndBit(a, Pow2(k), i);
      ShiftedOneBit(k, i);
    }
  }

  lemma {:induction false} BitIs(a: nat, i: nat)
    ensures Bit(a, i) <==> a / Pow2(i) % 2 == 1
  {
    if i > 0 {
      BitIs(a / 2, i - 1);
      HalfDiv(a, Pow2(i - 1));
    }
  }

  function Cleared(a: nat, m: nat): nat
    requires m > 0
  {
    a / m * m
  }

  // Shifting down and up again clears the low bits and keeps the others.
  lemma {:induction false} ShiftedBit(a: nat, k: nat, i: nat)
    ensures Bit(Cleared(a, Pow2(k)), i) <==> i >= k && Bit(a, i)
    decreases k
  {
    hide Pow2, Cleared;
    Doubles(k);
    if k == 0 {
      NothingCleared(a);
    } else {
      UpHalf(a, Pow2(k - 1));
      if i > 0 { ShiftedBit(a / 2, k - 1, i - 1); }
    }
  }

  lemma NothingCleared(a: nat)
    ensures Cleared(a, 1) == a
  {
  }

  lemma UpHalf(a: nat, m: nat)
    requires m > 0
    ensures Cleared(a, 2 * m) == 2 * Cleared(a / 2, m)
  {
    HalfDiv(a, m);
    var q := a / 2 / m;
    assert q * (2 * m) == 2 * (q * m);
  }

  lemma {:induction false} NoBitAbove(a: nat, i: nat)
    requires a < Pow2(i)
    ensures !Bit(a, i)
    decreases i
  {
    if i > 0 { NoBitAbove(a / 2, i - 1); }
  }

  lemma {:induction false} Pow2Grows(lo: nat, hi: nat)
    requires lo <= hi
    ensures Pow2(lo) <= Pow2(hi)
  {
    if lo < hi { Pow2Grows(lo, hi - 1); }
  }

  lemma Doubles(k: nat)
    ensures Pow2(k) == if k == 0 then 1 else 2 * Pow2(k - 1)
  {
  }

  // The bits of a from l on and below h, in place; h and l are powers of two.
  function Field(a: nat, h: nat, l: nat): nat
    requires h > 0 && l > 0
  {
    a % h / l * l
  }

  // `a & m` for a mask m of the bits lo..hi keeps that field in place.
  lemma AndMask(a: nat, lo: nat, hi: nat)
    requires lo <= hi
    ensures Pow2(lo) <= Pow2(hi)
    ensures And(a, Pow2(hi) - Pow2(lo)) == a % Pow2(hi) / Pow2(lo) * Pow2(lo)
  {
    hide And, Pow2;
    AndField(a, lo, hi);
  }

  lemma {:induction false} AndField(a: nat, lo: nat, hi: nat)
    requires lo <= hi
    ensures Pow2(lo) <= Pow2(hi)
    ensures And(a, Pow2(hi) - Pow2(lo)) == Field(a, Pow2(hi), Pow2(lo))
    decreases hi
  {
    hide And, Pow2, Field;
    Pow2Grows(lo, hi);
    Doubles(lo);
    Doubles(hi);
    if hi == 0 {
      AndZero(a);
      NoField(a);
    } else if lo == 0 {
      AndField(a / 2, 0, hi - 1);
      Doubles(0);
      LowField(a, Pow2(hi - 1));
      AndOdd(a, Pow2(hi - 1) - 1);
    } else {
      AndField(a / 2, lo - 1, hi - 1);
      AndEven(a, Pow2(hi - 1) - Pow2(lo - 1));
      FieldHalf(a, Pow2(hi - 1), Pow2(lo - 1));
    }
  }

  lemma NoField(a: nat)
    ensures Field(a, 1, 1) == 0
  {
  }

  lemma LowField(a: nat, h: nat)
    requires h > 0
    ensures Field(a, 2 * h, 1) == 2 * Field(a / 2, h, 1) + a % 2
  {
    HalfMod(a, h);
  }

  lemma AndZero(a: nat)
    ensures And(a, 0) == 0
  {
  }

  lemma AndOdd(a: nat, m: nat)
    ensures And(a, 2 * m + 1) == 2 * And(a / 2, m) + a % 2
  {
  }

  lemma AndEven(a: nat, m: nat)
    ensures And(a, 2 * m) == 2 * And(a / 2, m)
  {
  }

  lemma FieldHalf(a: nat, h: nat, l: nat)
    requires h > 0 && l > 0
    ensures Field(a, 2 * h, 2 * l) == 2 * Field(a / 2, h, l)
  {
    HalfMod(a, h);
    HalfDiv(a % (2 * h), l);
    var q := a / 2 % h / l;
    assert a % (2 * h) / 2 == a / 2 % h;
    assert q * (2 * l) == 2 * (q * l);
  }

  lemma HalfMod(a: nat, m: nat)
    requires m > 0
    ensures a % (2 * m) == 2 * (a / 2 % m) + a % 2
  {
    var q, r := a / 2 / m, a / 2 % m;
    assert a == 2 * (q * m + r) + a % 2;
    assert a == (2 * m) * q + (2 * r + a % 2) by {
      assert 2 * (q * m) == (2 * m) * q;
    }
    DivModUnique(a, 2 * m, q, 2 * r + a % 2);
  }

  lemma HalfDiv(a: nat, m: nat)
    requires m > 0
    ensures a / (2 * m) == a / 2 / m
  {
    var q, r := a / 2 / m, a / 2 % m;
    assert a == (2 * m) * q + (2 * r + a % 2) by {
      assert 2 * (q * m) == (2 * m) * q;
    }
    DivModUnique(a, 2 * m, q, 2 * r + a % 2);
  }

  lemma DivModUnique(a: nat, m: nat, q: nat, r: nat)
    requires m > 0 && r < m && a == m * q + r
    ensures a / m == q && a % m == r
  {
    var q' := a / m;
    if q' < q {
      MulGap(m, q', q);
    } else if q < q' {
      MulGap(m, q, q');
    }
  }

  lemma MulGap(m: nat, x: nat, y: nat)
    requires x < y
    ensures m * y >= m * x + m
  {
    assert m * y == m * x + m * (y - x);
    assert m * (y - x) == m + m * (y - x - 1);
  }

  lemma {:induction false} AndOrDistributes(a: nat, b: nat, m: nat)
    ensures And(Or(a, b), m) == Or(And(a, m), And(b, m))
  {
    if a != 0 && b != 0 && m != 0 {
      AndOrDistributes(a / 2, b / 2, m / 2);
      OrHalves(a, b);
      AndHalves(Or(a, b), m);
      AndHalves(a, m);
      AndHalves(b, m);
      OrHalves(And(a, m), And(b, m));
      hide And, Or;
    }
  }

  // Disjoint fields combine by addition.
  lemma {:induction false} OrDisjoint(a: nat, b: nat, k: nat)
    requires a % Pow2(k) == 0 && b < Pow2(k)
    ensures Or(a, b) == a + b
    decreases k
  {
    if k > 0 && a != 0 && b != 0 {
      HalfMod(a, Pow2(k - 1));
      assert a % 2 == 0 && a / 2 % Pow2(k - 1) == 0;
      OrDisjoint(a / 2, b / 2, k - 1);
    }
  }
}
