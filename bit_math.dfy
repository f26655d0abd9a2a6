/**
 * Bit fields of natural numbers.
 *
 * The packed array works with shifts and masks on 64-bit words. Here those are
 * written as arithmetic on naturals: `x >> k` is `x / Pow2(k)`, `x << k` is
 * `x * Pow2(k)`, `x & ((1 << k) - 1)` is `x % Pow2(k)`, and an `|` of two numbers
 * whose set bits do not overlap is their sum. A sequence of words is read as one
 * large natural number, least significant word first (`Num`), so that entry `i`
 * of a packed array of width `w` is simply `Field(Num(words), i * w, w)`.
 *
 * The lemmas come in three layers: facts about division by arbitrary positive
 * integers, the same facts instantiated with powers of two, and the facts about
 * `Field`, `UpdateField` and `Num` that the packed array uses.
 */
module BitMath {

  const WORD_BITS: nat := 64

  /** Two to the power `k`, by its recursive definition. */
  function Exp2(k: nat): (r: nat)
    ensures r >= 1
  {
    if k == 0 then 1 else 2 * Exp2(k - 1)
  }

  /**
   * Two to the power `k`. Everything below is stated with this non-recursive
   * name, so that a power appearing in an assumption and in a goal is one and
   * the same term to the solver.
   */
  function Pow2(k: nat): (r: nat)
    ensures r >= 1
  {
    Exp2(k)
  }

  /** An unsigned 64-bit word. */
  type Word = x: nat | x < Pow2(WORD_BITS)

  /** The `w` bits of `n` starting at bit `a`: `(n >> a) & ((1 << w) - 1)`. */
  function Field(n: nat, a: nat, w: nat): (r: nat)
    ensures r < Pow2(w)
  {
    (n / Pow2(a)) % Pow2(w)
  }

  /** `n` with its `w` bits starting at bit `a` replaced by `v`. */
  function UpdateField(n: nat, a: nat, w: nat, v: nat): nat
  {
    DivNonneg(n, Pow2(a + w));
    MulNonneg(Pow2(w), n / Pow2(a + w));
    MulNonneg(Pow2(a), v + Pow2(w) * (n / Pow2(a + w)));
    n % Pow2(a) + Pow2(a) * (v + Pow2(w) * (n / Pow2(a + w)))
  }

  /** The words read as one natural number, least significant word first. */
  function Num(ws: seq<nat>): nat
  {
    if |ws| == 0 then 0 else ws[0] + Pow2(WORD_BITS) * Num(ws[1..])
  }

  // ---------------------------------------------------------------------------
  // Division by a positive integer

  lemma MulMonotone(x: nat, a: int, b: int)
    requires a <= b
    ensures x * a <= x * b
  {
  }

  lemma MulNonneg(x: int, y: int)
    requires x >= 0 && y >= 0
    ensures x * y >= 0
  {
    MulMonotone(x, 0, y);
  }

  /** Quotient and remainder of a Euclidean division are unique. */
  lemma DivModUnique(n: int, d: int, q: int, r: int)
    requires d > 0 && n == d * q + r && 0 <= r < d
    ensures q == n / d && r == n % d
  {
    var q0, r0 := n / d, n % d;
    assert n == d * q0 + r0;
    if q < q0 {
      MulMonotone(d, q + 1, q0);
      assert false;
    } else if q > q0 {
      MulMonotone(d, q0 + 1, q);
      assert false;
    }
  }

  /** The quotient of a natural number by a positive one is natural. */
  lemma DivNonneg(x: int, d: int)
    requires x >= 0 && d > 0
    ensures x / d >= 0
  {
    var q, r := x / d, x % d;
    assert x == d * q + r;
    if q < 0 {
      MulMonotone(d, q, -1);
      assert false;
    }
  }

  lemma DivBelow(x: int, d: int, e: int, de: int)
    requires x >= 0 && d > 0 && de == d * e && x < de
    ensures 0 <= x / d < e
  {
    DivNonneg(x, d);
    if x / d >= e {
      MulMonotone(d, e, x / d);
      assert false;
    }
  }

  /** A two-digit number in base `d` with top digit below `e` is below `d * e`. */
  lemma BelowProduct(lo: int, d: int, h: int, e: int, de: int)
    requires 0 <= lo < d && 0 <= h < e && de == d * e
    ensures 0 <= lo + d * h < de
  {
    MulNonneg(d, h);
    MulMonotone(d, h, e - 1);
    assert d * (e - 1) == d * e - d;
  }

  /** Digits below `d` do not reach the quotient by `d * e`. */
  lemma DivLow(lo: int, d: int, y: int, e: int, de: int)
    requires d > 0 && e > 0 && de == d * e && 0 <= lo < d && y >= 0
    ensures (lo + d * y) / de == y / e
    ensures (lo + d * y) % de == lo + d * (y % e)
  {
    MulMonotone(d, 1, e);
    var q, r := y / e, y % e;
    assert y == e * q + r;
    assert d * y == (d * e) * q + d * r;
    MulMonotone(d, r, e - 1);
    assert d * (e - 1) == d * e - d;
    DivModUnique(lo + d * y, d * e, q, lo + d * r);
  }

  /** Adding a multiple of `d * e` adds a multiple of `e` to the quotient by `d`. */
  lemma DivHigh(x: int, d: int, e: int, de: int, hi: int)
    requires d > 0 && x >= 0 && de == d * e
    ensures (x + de * hi) / d == x / d + e * hi
    ensures (x + de * hi) % d == x % d
  {
    var q, r := x / d, x % d;
    assert x + (d * e) * hi == d * (q + e * hi) + r;
    DivModUnique(x + (d * e) * hi, d, q + e * hi, r);
  }

  /** Every natural number is its remainder plus a multiple of the divisor. */
  lemma DivMod(n: int, d: int)
    requires n >= 0 && d > 0
    ensures n == n % d + d * (n / d)
  {
  }

  /** Dividing by `d` and then by `e` is dividing by `d * e`. */
  lemma DivDivGen(n: int, d: int, e: int, de: int)
    requires n >= 0 && d > 0 && e > 0 && de == d * e
    ensures n / d / e == n / de
  {
    DivNonneg(n, d);
    DivMod(n, d);
    DivLow(n % d, d, n / d, e, de);
  }

  /** The remainder by `d * e` is the remainder by `d` followed by the next digit in base `e`. */
  lemma ModConcatGen(y: int, d: int, e: int, de: int)
    requires y >= 0 && d > 0 && e > 0 && de == d * e
    ensures y % de == y % d + d * ((y / d) % e)
  {
    DivNonneg(y, d);
    DivMod(y, d);
    DivLow(y % d, d, y / d, e, de);
  }

  /** Written digit by digit, a field replaced below `paw` stays below `paw`. */
  lemma SpliceLowGen(n: int, pa: int, pw: int, paw: int, v: int, h: int)
    requires n >= 0 && pa > 0 && pw > 0 && paw == pa * pw && 0 <= v < pw
    ensures 0 <= n % pa + pa * v < paw
    ensures n % pa + pa * (v + pw * h) == (n % pa + pa * v) + paw * h
  {
    BelowProduct(n % pa, pa, v, pw, paw);
  }

  lemma SpliceBoundGen(x: int, pa: int, pw: int, paw: int, pe: int, pc: int, v: int)
    requires pa > 0 && pw > 0 && pe > 0 && paw == pa * pw && pc == paw * pe
    requires 0 <= x < pc && 0 <= v < pw
    ensures x % pa + pa * (v + pw * (x / paw)) < pc
  {
    var lo, h := x % pa + pa * v, x / paw;
    BelowProduct(x % pa, pa, v, pw, paw);
    DivBelow(x, paw, pe, pc);
    BelowProduct(lo, paw, h, pe, pc);
  }

  lemma ConcatGen(lo: int, pa: int, pw1: int, pw2: int, paw1: int, pw12: int, v1: int, v2: int, h: int)
    requires paw1 == pa * pw1 && pw12 == pw1 * pw2
    ensures (lo + pa * v1) + paw1 * (v2 + pw2 * h) == lo + pa * (v1 + pw1 * v2 + pw12 * h)
  {
  }

  lemma ScaleGen(lo: int, pk: int, pa: int, pka: int, r: int, x: int)
    requires pka == pk * pa
    ensures lo + pk * r + pka * x == lo + pk * (r + pa * x)
  {
  }

  lemma HighGen(m: int, pa: int, pw: int, pd: int, paw: int, pc: int, v: int, x: int, hi: int)
    requires paw == pa * pw && pc == paw * pd
    ensures m + pa * (v + pw * (x + pd * hi)) == (m + pa * (v + pw * x)) + pc * hi
  {
  }

  // ---------------------------------------------------------------------------
  // Powers of two

  lemma {:induction false} Exp2Add(a: nat, b: nat)
    ensures Exp2(a + b) == Exp2(a) * Exp2(b)
  {
    if a > 0 {
      Exp2Add(a - 1, b);
      assert Exp2(a + b) == 2 * Exp2(a - 1 + b);
    }
  }

  lemma Pow2Sum(a: nat, b: nat, c: nat)
    requires a + b == c
    ensures Pow2(c) == Pow2(a) * Pow2(b)
  {
    Exp2Add(a, b);
  }

  lemma DivDiv(n: nat, a: nat, b: nat, ab: nat)
    requires a + b == ab
    ensures n / Pow2(a) / Pow2(b) == n / Pow2(ab)
  {
    Pow2Sum(a, b, ab);
    DivDivGen(n, Pow2(a), Pow2(b), Pow2(ab));
  }

  lemma SplitLow(lo: int, k: nat, y: int, m: nat, km: nat)
    requires 0 <= lo < Pow2(k) && y >= 0 && k + m == km
    ensures (lo + Pow2(k) * y) / Pow2(km) == y / Pow2(m)
    ensures (lo + Pow2(k) * y) % Pow2(km) == lo + Pow2(k) * (y % Pow2(m))
  {
    Pow2Sum(k, m, km);
    DivLow(lo, Pow2(k), y, Pow2(m), Pow2(km));
  }

  lemma SplitHigh(x: int, c: nat, hi: int, a: nat, d: nat)
    requires x >= 0 && a + d == c
    ensures (x + Pow2(c) * hi) / Pow2(a) == x / Pow2(a) + Pow2(d) * hi
    ensures (x + Pow2(c) * hi) % Pow2(a) == x % Pow2(a)
  {
    Pow2Sum(a, d, c);
    DivHigh(x, Pow2(a), Pow2(d), Pow2(c), hi);
  }

  lemma ModLow(lo: int, k: nat, y: int)
    requires 0 <= lo < Pow2(k)
    ensures (lo + Pow2(k) * y) % Pow2(k) == lo
  {
    DivModUnique(lo + Pow2(k) * y, Pow2(k), y, lo);
  }

  lemma ModConcat(y: int, w1: nat, w2: nat)
    requires y >= 0
    ensures y % Pow2(w1 + w2) == y % Pow2(w1) + Pow2(w1) * ((y / Pow2(w1)) % Pow2(w2))
  {
    Pow2Sum(w1, w2, w1 + w2);
    ModConcatGen(y, Pow2(w1), Pow2(w2), Pow2(w1 + w2));
  }

  lemma ModHigh(t: int, w: nat, k: nat, hi: int)
    requires t >= 0 && w <= k
    ensures (t + Pow2(k) * hi) % Pow2(w) == t % Pow2(w)
  {
    Pow2Sum(w, k - w, k);
    DivHigh(t, Pow2(w), Pow2(k - w), Pow2(k), hi);
  }

  lemma ShiftHighX(x: nat, hi: int, c: nat, a: nat, w: nat)
    requires a + w <= c
    ensures ((x + Pow2(c) * hi) / Pow2(a)) % Pow2(w) == (x / Pow2(a)) % Pow2(w)
  {
    var d := c - a;
    SplitHigh(x, c, hi, a, d);
    DivNonneg(x, Pow2(a));
    ModHigh(x / Pow2(a), w, d, hi);
  }

  lemma LowPartX(n: nat, a: nat, w: nat, v: nat)
    requires v < Pow2(w)
    ensures 0 <= n % Pow2(a) + Pow2(a) * v < Pow2(a + w)
    ensures n % Pow2(a) + Pow2(a) * (v + Pow2(w) * (n / Pow2(a + w)))
         == (n % Pow2(a) + Pow2(a) * v) + Pow2(a + w) * (n / Pow2(a + w))
  {
    Pow2Sum(a, w, a + w);
    SpliceLowGen(n, Pow2(a), Pow2(w), Pow2(a + w), v, n / Pow2(a + w));
  }

  lemma UpdateBoundX(x: nat, c: nat, a: nat, w: nat, v: nat)
    requires x < Pow2(c) && a + w <= c && v < Pow2(w)
    ensures x % Pow2(a) + Pow2(a) * (v + Pow2(w) * (x / Pow2(a + w))) < Pow2(c)
  {
    Pow2Sum(a, w, a + w);
    Pow2Sum(a + w, c - (a + w), c);
    SpliceBoundGen(x, Pow2(a), Pow2(w), Pow2(a + w), Pow2(c - (a + w)), Pow2(c), v);
  }

  lemma ConcatX(lo: int, a: nat, w1: nat, w2: nat, v1: int, v2: int, h: int)
    ensures (lo + Pow2(a) * v1) + Pow2(a + w1) * (v2 + Pow2(w2) * h)
         == lo + Pow2(a) * (v1 + Pow2(w1) * v2 + Pow2(w1 + w2) * h)
  {
    Pow2Sum(a, w1, a + w1);
    Pow2Sum(w1, w2, w1 + w2);
    ConcatGen(lo, Pow2(a), Pow2(w1), Pow2(w2), Pow2(a + w1), Pow2(w1 + w2), v1, v2, h);
  }

  lemma ScaleX(lo: int, k: nat, a: nat, ka: nat, r: int, x: int)
    requires k + a == ka
    ensures lo + Pow2(k) * r + Pow2(ka) * x == lo + Pow2(k) * (r + Pow2(a) * x)
  {
    Pow2Sum(k, a, ka);
    ScaleGen(lo, Pow2(k), Pow2(a), Pow2(ka), r, x);
  }

  lemma HighX(m: int, a: nat, w: nat, d: nat, c: nat, v: int, x: int, hi: int)
    requires a + w + d == c
    ensures m + Pow2(a) * (v + Pow2(w) * (x + Pow2(d) * hi))
         == (m + Pow2(a) * (v + Pow2(w) * x)) + Pow2(c) * hi
  {
    Pow2Sum(a, w, a + w);
    Pow2Sum(a + w, d, c);
    HighGen(m, Pow2(a), Pow2(w), Pow2(d), Pow2(a + w), Pow2(c), v, x, hi);
  }

  // ---------------------------------------------------------------------------
  // Fields

  /** Reading a field after writing it gives back the value written. */
  lemma FieldOfUpdate(n: nat, a: nat, w: nat, v: nat)
    requires v < Pow2(w)
    ensures Field(UpdateField(n, a, w, v), a, w) == v
  {
    var pa, pw := Pow2(a), Pow2(w);
    var h := n / Pow2(a + w);
    DivNonneg(n, Pow2(a + w));
    MulNonneg(pw, h);
    var y := v + pw * h;
    var m := UpdateField(n, a, w, v);
    assert m == pa * y + n % pa;
    DivModUnique(m, pa, y, n % pa);
    DivModUnique(y, pw, h, v);
  }

  /** Bits at or above `c` do not reach a field that ends at or below `c`. */
  lemma FieldHigh(x: nat, hi: nat, c: nat, a: nat, w: nat)
    requires a + w <= c
    ensures Field(x + Pow2(c) * hi, a, w) == Field(x, a, w)
  {
    ShiftHighX(x, hi, c, a, w);
  }

  /** A field that starts at or above `k` only sees the bits above `k`. */
  lemma FieldAbove(lo: nat, hi: nat, k: nat, a: nat, w: nat, d: nat)
    requires lo < Pow2(k) && k + d == a
    ensures Field(lo + Pow2(k) * hi, a, w) == Field(hi, d, w)
  {
    SplitLow(lo, k, hi, d, a);
  }

  /** The bits of `n` below `a + w` with its field at `a` replaced by `v`, and the bits above. */
  lemma LowPart(n: nat, a: nat, w: nat, v: nat)
    requires v < Pow2(w)
    ensures n % Pow2(a) + Pow2(a) * v < Pow2(a + w)
    ensures UpdateField(n, a, w, v) == (n % Pow2(a) + Pow2(a) * v) + Pow2(a + w) * (n / Pow2(a + w))
  {
    LowPartX(n, a, w, v);
  }

  lemma FieldOfUpdateBelow(n: nat, a: nat, w: nat, v: nat, b: nat, w': nat)
    requires b + w' <= a
    ensures Field(UpdateField(n, a, w, v), b, w') == Field(n, b, w')
  {
    var lo, h := n % Pow2(a), n / Pow2(a + w);
    DivNonneg(n, Pow2(a + w));
    MulNonneg(Pow2(w), h);
    DivNonneg(n, Pow2(a));
    FieldHigh(lo, v + Pow2(w) * h, a, b, w');
    DivMod(n, Pow2(a));
    FieldHigh(lo, n / Pow2(a), a, b, w');
  }

  lemma FieldOfUpdateAbove(n: nat, a: nat, w: nat, v: nat, b: nat, w': nat)
    requires v < Pow2(w) && a + w <= b
    ensures Field(UpdateField(n, a, w, v), b, w') == Field(n, b, w')
  {
    var h := n / Pow2(a + w);
    DivNonneg(n, Pow2(a + w));
    LowPart(n, a, w, v);
    FieldAbove(n % Pow2(a) + Pow2(a) * v, h, a + w, b, w', b - (a + w));
    DivMod(n, Pow2(a + w));
    FieldAbove(n % Pow2(a + w), h, a + w, b, w', b - (a + w));
  }

  /** Writing a field leaves every field that does not overlap it unchanged. */
  lemma FieldOfUpdateOther(n: nat, a: nat, w: nat, v: nat, b: nat, w': nat)
    requires v < Pow2(w)
    requires b + w' <= a || a + w <= b
    ensures Field(UpdateField(n, a, w, v), b, w') == Field(n, b, w')
  {
    if b + w' <= a {
      FieldOfUpdateBelow(n, a, w, v, b, w');
    } else {
      FieldOfUpdateAbove(n, a, w, v, b, w');
    }
  }

  /** A field of width `w1 + w2` is the field of width `w1` followed by the one of width `w2`. */
  lemma FieldConcat(n: nat, a: nat, w1: nat, w2: nat, b: nat, w: nat)
    requires b == a + w1 && w == w1 + w2
    ensures Field(n, a, w) == Field(n, a, w1) + Pow2(w1) * Field(n, b, w2)
  {
    DivNonneg(n, Pow2(a));
    ModConcat(n / Pow2(a), w1, w2);
    DivDiv(n, a, w1, b);
  }

  /** Writing at bit `k` of a number whose bits below `k` are `lo`. */
  lemma UpdateAt(lo: nat, h: nat, k: nat, w: nat, v: nat)
    requires lo < Pow2(k)
    ensures UpdateField(lo + Pow2(k) * h, k, w, v) == lo + Pow2(k) * (v + Pow2(w) * (h / Pow2(w)))
  {
    ModLow(lo, k, h);
    SplitLow(lo, k, h, w, k + w);
  }

  /** Writing two adjacent fields is writing the field they make together. */
  lemma UpdateConcat(n: nat, a: nat, w1: nat, v1: nat, w2: nat, v2: nat, b: nat, w: nat, v: nat)
    requires v1 < Pow2(w1) && b == a + w1 && w == w1 + w2 && v == v1 + Pow2(w1) * v2
    ensures UpdateField(UpdateField(n, a, w1, v1), b, w2, v2) == UpdateField(n, a, w, v)
  {
    UpdateConcatX(n, a, w1, v1, w2, v2);
  }

  lemma UpdateConcatX(n: nat, a: nat, w1: nat, v1: nat, w2: nat, v2: nat)
    requires v1 < Pow2(w1)
    ensures UpdateField(UpdateField(n, a, w1, v1), a + w1, w2, v2)
         == UpdateField(n, a, w1 + w2, v1 + Pow2(w1) * v2)
  {
    var lo := n % Pow2(a);
    var h1 := n / Pow2(a + w1);
    DivNonneg(n, Pow2(a + w1));
    LowPart(n, a, w1, v1);
    UpdateAt(lo + Pow2(a) * v1, h1, a + w1, w2, v2);
    DivDiv(n, a + w1, w2, a + (w1 + w2));
    ConcatX(lo, a, w1, w2, v1, v2, n / Pow2(a + (w1 + w2)));
  }

  /** Writing into a number whose bits are all below `c` keeps them below `c`. */
  lemma UpdateBound(x: nat, c: nat, a: nat, w: nat, v: nat)
    requires x < Pow2(c) && a + w <= c && v < Pow2(w)
    ensures UpdateField(x, a, w, v) < Pow2(c)
  {
    UpdateBoundX(x, c, a, w, v);
  }

  /** Writing above the low `k` bits writes the number made of the bits above them. */
  lemma UpdateLow(lo: nat, y: nat, k: nat, a: nat, ka: nat, w: nat, v: nat)
    requires lo < Pow2(k) && k + a == ka
    ensures UpdateField(lo + Pow2(k) * y, ka, w, v) == lo + Pow2(k) * UpdateField(y, a, w, v)
  {
    SplitLow(lo, k, y, a, ka);
    SplitLow(lo, k, y, a + w, ka + w);
    ScaleX(lo, k, a, ka, y % Pow2(a), v + Pow2(w) * (y / Pow2(a + w)));
  }

  /** Writing below bit `c` leaves the bits from `c` upwards alone. */
  lemma UpdateHigh(x: nat, hi: nat, c: nat, a: nat, w: nat, v: nat)
    requires a + w <= c
    ensures UpdateField(x + Pow2(c) * hi, a, w, v) == UpdateField(x, a, w, v) + Pow2(c) * hi
  {
    var d := c - (a + w);
    SplitHigh(x, c, hi, a, c - a);
    SplitHigh(x, c, hi, a + w, d);
    HighX(x % Pow2(a), a, w, d, c, v, x / Pow2(a + w), hi);
  }

  /** Writing inside the word `x` at bit `k`, with `lo` below it and `r` above it. */
  lemma UpdateInWord(n: nat, lo: nat, x: nat, r: nat, k: nat, a: nat, w: nat, v: nat)
    requires n == lo + Pow2(k) * (x + Pow2(WORD_BITS) * r)
    requires lo < Pow2(k) && a + w <= WORD_BITS
    ensures UpdateField(n, k + a, w, v) == lo + Pow2(k) * (UpdateField(x, a, w, v) + Pow2(WORD_BITS) * r)
  {
    MulNonneg(Pow2(WORD_BITS), r);
    UpdateLow(lo, x + Pow2(WORD_BITS) * r, k, a, k + a, w, v);
    UpdateHigh(x, r, WORD_BITS, a, w, v);
  }

  // ---------------------------------------------------------------------------
  // Words as one number

  lemma {:induction false} NumSplit(ws: seq<nat>, s: nat)
    requires s <= |ws|
    ensures Num(ws) == Num(ws[..s]) + Pow2(WORD_BITS * s) * Num(ws[s..])
  {
    if s > 0 {
      NumSplit(ws[1..], s - 1);
      assert ws[1..][..s - 1] == ws[..s][1..];
      assert ws[1..][s - 1..] == ws[s..];
      ScaleX(ws[0], WORD_BITS, WORD_BITS * (s - 1), WORD_BITS * s, Num(ws[..s][1..]), Num(ws[s..]));
    } else {
      assert ws[..0] == [];
      assert ws[0..] == ws;
    }
  }

  lemma {:induction false} NumBound(ws: seq<nat>)
    requires forall k :: 0 <= k < |ws| ==> ws[k] < Pow2(WORD_BITS)
    ensures Num(ws) < Pow2(WORD_BITS * |ws|)
  {
    if |ws| > 0 {
      NumBound(ws[1..]);
      var n := |ws| - 1;
      Pow2Sum(WORD_BITS, WORD_BITS * n, WORD_BITS * |ws|);
      BelowProduct(ws[0], Pow2(WORD_BITS), Num(ws[1..]), Pow2(WORD_BITS * n), Pow2(WORD_BITS * |ws|));
    }
  }

  lemma {:induction false} NumZero(ws: seq<nat>)
    requires forall k :: 0 <= k < |ws| ==> ws[k] == 0
    ensures Num(ws) == 0
  {
    if |ws| > 0 {
      NumZero(ws[1..]);
    }
  }

  /** Word `s` around its neighbours: everything below it, the word, everything above it. */
  lemma NumAround(ws: seq<nat>, s: nat)
    requires s < |ws|
    requires forall k :: 0 <= k < |ws| ==> ws[k] < Pow2(WORD_BITS)
    ensures Num(ws[..s]) < Pow2(WORD_BITS * s)
    ensures Num(ws) == Num(ws[..s]) + Pow2(WORD_BITS * s) * (ws[s] + Pow2(WORD_BITS) * Num(ws[s + 1..]))
  {
    NumSplit(ws, s);
    NumBound(ws[..s]);
    assert ws[s..][1..] == ws[s + 1..];
  }

  /** Replacing word `s` by `x`. */
  lemma NumReplace(ws: seq<nat>, s: nat, x: nat)
    requires s < |ws| && x < Pow2(WORD_BITS)
    requires forall k :: 0 <= k < |ws| ==> ws[k] < Pow2(WORD_BITS)
    ensures Num(ws[s := x]) == Num(ws[..s]) + Pow2(WORD_BITS * s) * (x + Pow2(WORD_BITS) * Num(ws[s + 1..]))
  {
    var ws' := ws[s := x];
    NumAround(ws', s);
    assert ws'[..s] == ws[..s] && ws'[s + 1..] == ws[s + 1..];
  }

  /** A field that lies inside one word is read from that word alone. */
  lemma NumRead(ws: seq<nat>, s: nat, a: nat, w: nat)
    requires s < |ws| && a + w <= WORD_BITS
    requires forall k :: 0 <= k < |ws| ==> ws[k] < Pow2(WORD_BITS)
    ensures Field(Num(ws), WORD_BITS * s + a, w) == Field(ws[s], a, w)
  {
    NumAround(ws, s);
    var hi := ws[s] + Pow2(WORD_BITS) * Num(ws[s + 1..]);
    FieldAbove(Num(ws[..s]), hi, WORD_BITS * s, WORD_BITS * s + a, w, a);
    FieldHigh(ws[s], Num(ws[s + 1..]), WORD_BITS, a, w);
  }

  /** Writing a field that lies inside one word is writing that word alone. */
  lemma NumWrite(ws: seq<nat>, s: nat, a: nat, w: nat, v: nat)
    requires s < |ws| && a + w <= WORD_BITS && v < Pow2(w)
    requires forall k :: 0 <= k < |ws| ==> ws[k] < Pow2(WORD_BITS)
    ensures UpdateField(ws[s], a, w, v) < Pow2(WORD_BITS)
    ensures Num(ws[s := UpdateField(ws[s], a, w, v)]) == UpdateField(Num(ws), WORD_BITS * s + a, w, v)
  {
    var x' := UpdateField(ws[s], a, w, v);
    UpdateBound(ws[s], WORD_BITS, a, w, v);
    NumAround(ws, s);
    NumReplace(ws, s, x');
    UpdateInWord(Num(ws), Num(ws[..s]), ws[s], Num(ws[s + 1..]), WORD_BITS * s, a, w, v);
  }

  /** A word shifted right by `o` has at most `64 - o` bits left. */
  lemma ShiftedWord(x: nat, o: nat)
    requires x < Pow2(WORD_BITS) && o <= WORD_BITS
    ensures x / Pow2(o) < Pow2(WORD_BITS - o)
    ensures Field(x, o, WORD_BITS - o) == x / Pow2(o)
  {
    Pow2Sum(o, WORD_BITS - o, WORD_BITS);
    DivBelow(x, Pow2(o), Pow2(WORD_BITS - o), Pow2(WORD_BITS));
    DivModUnique(x / Pow2(o), Pow2(WORD_BITS - o), 0, x / Pow2(o));
  }

  /** The low `j` bits of `x`. */
  lemma FieldLow(x: nat, j: nat)
    ensures Field(x, 0, j) == x % Pow2(j)
  {
    assert Pow2(0) == 1;
  }

  /** `(lo | (y << w1)) & ((1 << (w1 + j)) - 1)` when `lo` has at most `w1` bits. */
  lemma CombineX(lo: nat, y: nat, w1: nat, j: nat, w: nat)
    requires lo < Pow2(w1) && w1 + j == w
    ensures (lo + Pow2(w1) * y) % Pow2(w) == lo + Pow2(w1) * (y % Pow2(j))
  {
    Pow2Sum(w1, j, w);
    DivLow(lo, Pow2(w1), y, Pow2(j), Pow2(w));
  }

  /**
   * A field that starts at bit `o` of word `s` and runs into word `s + 1`:
   * `((ws[s] >> o) | (ws[s + 1] << (64 - o))) & ((1 << w) - 1)`.
   */
  lemma ReadStraddle(ws: seq<nat>, s: nat, o: nat, w: nat)
    requires s + 1 < |ws| && o < WORD_BITS < o + w && w <= WORD_BITS
    requires forall k :: 0 <= k < |ws| ==> ws[k] < Pow2(WORD_BITS)
    ensures Field(Num(ws), WORD_BITS * s + o, w)
         == (ws[s] / Pow2(o) + Pow2(WORD_BITS - o) * ws[s + 1]) % Pow2(w)
  {
    var w1, j := WORD_BITS - o, o + w - WORD_BITS;
    ShiftedWord(ws[s], o);
    assert Field(Num(ws), WORD_BITS * s + o, w) == ws[s] / Pow2(o) + Pow2(w1) * (ws[s + 1] % Pow2(j)) by {
      FieldConcat(Num(ws), WORD_BITS * s + o, w1, j, WORD_BITS * (s + 1) + 0, w);
      NumRead(ws, s, o, w1);
      NumRead(ws, s + 1, 0, j);
      FieldLow(ws[s + 1], j);
    }
    CombineX(ws[s] / Pow2(o), ws[s + 1], w1, j, w);
  }

  /**
   * Writing a field that starts at bit `o` of word `s` and runs into word `s + 1`
   * is writing its low `v1` (`64 - o` bits) into word `s` and its high `v2`
   * (`j` bits) into word `s + 1`.
   */
  lemma WriteStraddle(ws: seq<nat>, s: nat, o: nat, w: nat, v: nat, j: nat, v1: nat, v2: nat)
    requires s + 1 < |ws| && o < WORD_BITS < o + w && w <= WORD_BITS && v < Pow2(w)
    requires j == o + w - WORD_BITS && v1 == v % Pow2(WORD_BITS - o) && v2 == v / Pow2(WORD_BITS - o)
    requires forall k :: 0 <= k < |ws| ==> ws[k] < Pow2(WORD_BITS)
    ensures UpdateField(ws[s], o, WORD_BITS - o, v1) < Pow2(WORD_BITS)
    ensures UpdateField(ws[s + 1], 0, j, v2) < Pow2(WORD_BITS)
    ensures Num(ws[s := UpdateField(ws[s], o, WORD_BITS - o, v1)][s + 1 := UpdateField(ws[s + 1], 0, j, v2)])
         == UpdateField(Num(ws), WORD_BITS * s + o, w, v)
  {
    var w1 := WORD_BITS - o;
    Pow2Sum(w1, j, w);
    DivBelow(v, Pow2(w1), Pow2(j), Pow2(w));
    DivMod(v, Pow2(w1));
    var ws1 := ws[s := UpdateField(ws[s], o, w1, v1)];
    NumWrite(ws, s, o, w1, v1);
    assert ws1[s + 1] == ws[s + 1];
    NumWrite(ws1, s + 1, 0, j, v2);
    UpdateConcat(Num(ws), WORD_BITS * s + o, w1, v1, j, v2, WORD_BITS * (s + 1) + 0, w, v);
  }
}
