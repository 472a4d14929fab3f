/** Bitwise arithmetic on unsigned values, written on naturals.
  *
  * Shifts and masks by constants are the multiplications, divisions and
  * remainders by powers of two that they are on unsigned values of any width;
  * exclusive-or is `Xor` below, and carries the GF(2) algebra that the CRC needs.
  */
module Gf2 {

  function Pow2(k: nat): (r: nat)
    ensures r > 0
  {
    if k == 0 then 1 else 2 * Pow2(k - 1)
  }

  // Quotient and remainder are what they are written as.
  lemma DivMod(q: nat, r: nat, d: nat)
    requires r < d
    ensures (q * d + r) / d == q && (q * d + r) % d == r
  {
    DivModUnique(q * d + r, q, r, d);
  }

  lemma DivModUnique(x: nat, q: nat, r: nat, d: nat)
    requires r < d && x == q * d + r
    ensures x / d == q && x % d == r
  {
    UniqueDigits(x / d, x % d, q, r, d);
  }

  lemma UniqueDigits(p: int, s: nat, q: int, r: nat, d: nat)
    requires s < d && r < d && p * d + s == q * d + r
    ensures p == q && s == r
  {
    if p < q {
      Apart(p, q, d);
    } else if q < p {
      Apart(q, p, d);
    }
  }

  lemma Apart(p: int, q: int, d: nat)
    requires p < q
    ensures p * d + d <= q * d
  {
    assert (q - p) * d == q * d - p * d;
    assert (q - p - 1) * d >= 0;
  }

  /** Bit `k` of `v`. */
  function Bit(v: nat, k: nat): (r: nat)
    ensures r <= 1
  {
    if k == 0 then v % 2 else Bit(v / 2, k - 1)
  }

  /** Bitwise exclusive-or: addition without carry. */
  function Xor(a: nat, b: nat): nat {
    if a == 0 then b
    else if b == 0 then a
    else (if a % 2 == b % 2 then 0 else 1) + 2 * Xor(a / 2, b / 2)
  }

  // One digit of an exclusive-or, whichever case of the definition applies.
  lemma XorStep(a: nat, b: nat)
    ensures Xor(a, b) % 2 == (if a % 2 == b % 2 then 0 else 1)
    ensures Xor(a, b) / 2 == Xor(a / 2, b / 2)
  {
    if a != 0 && b != 0 {
      Digit(if a % 2 == b % 2 then 0 else 1, Xor(a / 2, b / 2));
    }
  }

  lemma Digit(d: nat, x: nat)
    requires d < 2
    ensures (d + 2 * x) % 2 == d && (d + 2 * x) / 2 == x
  {}

  lemma {:induction false} XorComm(a: nat, b: nat)
    ensures Xor(a, b) == Xor(b, a)
  {
    if a != 0 && b != 0 {
      XorComm(a / 2, b / 2);
    }
  }

  lemma {:induction false} XorAssoc(a: nat, b: nat, c: nat)
    ensures Xor(Xor(a, b), c) == Xor(a, Xor(b, c))
    decreases a + b + c
  {
    if a != 0 && b != 0 && c != 0 {
      XorAssoc(a / 2, b / 2, c / 2);
      XorStep(a, b);
      XorStep(b, c);
      XorStep(Xor(a, b), c);
      XorStep(a, Xor(b, c));
    }
  }

  lemma {:induction false} XorSelf(a: nat)
    ensures Xor(a, a) == 0
  {
    if a != 0 {
      XorSelf(a / 2);
    }
  }

  // Cancellation: exclusive-or with a fixed value is injective.
  lemma XorCancel(a: nat, b: nat, c: nat)
    requires Xor(a, c) == Xor(b, c)
    ensures a == b
  {
    XorAssoc(a, c, c);
    XorAssoc(b, c, c);
    XorSelf(c);
  }

  lemma {:induction false} XorBound(a: nat, b: nat, k: nat)
    requires a < Pow2(k) && b < Pow2(k)
    ensures Xor(a, b) < Pow2(k)
  {
    if k > 0 && a != 0 && b != 0 {
      XorBound(a / 2, b / 2, k - 1);
    }
  }

  lemma XorDouble(a: nat, b: nat)
    ensures Xor(2 * a, 2 * b) == 2 * Xor(a, b)
  {
    XorStep(2 * a, 2 * b);
  }

  lemma {:induction false} XorShift(a: nat, b: nat, k: nat)
    ensures Xor(a * Pow2(k), b * Pow2(k)) == Xor(a, b) * Pow2(k)
  {
    if k > 0 {
      var p := Pow2(k - 1);
      calc {
        Xor(a * Pow2(k), b * Pow2(k));
        { Doubled(a, p); Doubled(b, p); }
        Xor(2 * (a * p), 2 * (b * p));
        { XorDouble(a * p, b * p); }
        2 * Xor(a * p, b * p);
        { XorShift(a, b, k - 1); }
        2 * (Xor(a, b) * p);
        { Doubled(Xor(a, b), p); }
        Xor(a, b) * Pow2(k);
      }
    }
  }

  lemma Doubled(a: nat, p: nat)
    ensures a * (2 * p) == 2 * (a * p)
  {}

  // Values whose bits do not overlap: exclusive-or is addition.
  lemma {:induction false} XorDisjoint(a: nat, b: nat, k: nat)
    requires b < Pow2(k)
    ensures Xor(a * Pow2(k), b) == a * Pow2(k) + b
  {
    if k > 0 {
      var p := Pow2(k - 1);
      assert a * Pow2(k) == 2 * (a * p);
      XorDisjoint(a, b / 2, k - 1);
      XorStep(2 * (a * p), b);
    }
  }

  // Regrouping four operands two by two.
  lemma XorSwap(a: nat, x: nat, b: nat, y: nat)
    ensures Xor(Xor(a, x), Xor(b, y)) == Xor(Xor(a, b), Xor(x, y))
  {
    hide Xor;
    XorAssoc(a, x, Xor(b, y));
    XorAssoc(x, b, y);
    XorComm(x, b);
    XorAssoc(b, x, y);
    XorAssoc(a, b, Xor(x, y));
  }

  // The high part and the low part of an exclusive-or, about bit `k`.
  lemma XorSplit(a: nat, b: nat, x: nat, y: nat, k: nat)
    requires x < Pow2(k) && y < Pow2(k)
    ensures Xor(a * Pow2(k) + x, b * Pow2(k) + y) == Xor(a, b) * Pow2(k) + Xor(x, y)
  {
    hide *;
    XorDisjoint(a, x, k);
    XorDisjoint(b, y, k);
    XorShift(a, b, k);
    XorBound(x, y, k);
    XorDisjoint(Xor(a, b), Xor(x, y), k);
    XorJoin(a * Pow2(k), x, b * Pow2(k), y, Xor(a, b) * Pow2(k));
  }

  lemma XorJoin(a: nat, x: nat, b: nat, y: nat, c: nat)
    requires Xor(a, x) == a + x && Xor(b, y) == b + y && Xor(a, b) == c
    requires Xor(c, Xor(x, y)) == c + Xor(x, y)
    ensures Xor(a + x, b + y) == c + Xor(x, y)
  {
    hide Xor;
    XorSwap(a, x, b, y);
  }

  // ---------------------------------------------------------------------------
  // Bit reversal
  // ---------------------------------------------------------------------------

  /** The lowest `n` bits of `v`, mirrored within `width` bits. */
  function Mirror(v: nat, width: nat, n: nat): nat
    requires n <= width
  {
    if n == 0 then 0 else Mirror(v, width, n - 1) + Bit(v, n - 1) * Pow2(width - n)
  }

  lemma {:induction false} BitZero(k: nat)
    ensures Bit(0, k) == 0
  {
    if k > 0 { BitZero(k - 1); }
  }

  // A value's bit at the place of its only possible digit, and elsewhere.
  lemma {:induction false} BitOfShifted(d: nat, j: nat, k: nat)
    requires d <= 1
    ensures Bit(d * Pow2(j), k) == if j == k then d else 0
  {
    if j > 0 && k > 0 {
      BitOfShifted(d, j - 1, k - 1);
      Doubled(d, Pow2(j - 1));
    } else if j > 0 {
      Doubled(d, Pow2(j - 1));
    } else if k > 0 {
      BitZero(k - 1);
    }
  }

  // The value splits about bit `j` into a multiple of Pow2(j) and a remainder.
  lemma {:induction false} BitOfSum(a: nat, x: nat, j: nat, k: nat)
    requires x < Pow2(j)
    ensures Bit(a * Pow2(j) + x, k) == if k < j then Bit(x, k) else Bit(a, k - j)
  {
    if j == 0 {
      assert a * Pow2(0) + x == a;
    } else {
      var p := Pow2(j - 1);
      Doubled(a, p);
      assert (2 * (a * p) + x) / 2 == a * p + x / 2;
      if k > 0 { BitOfSum(a, x / 2, j - 1, k - 1); }
    }
  }

  /** The lowest `n` bits of `v`, mirrored within those `n` bits. */
  function Turned(v: nat, n: nat): (r: nat)
    ensures r < Pow2(n)
  {
    if n == 0 then 0 else 2 * Turned(v, n - 1) + Bit(v, n - 1)
  }

  lemma {:induction false} MirrorShape(v: nat, width: nat, n: nat)
    requires n <= width
    ensures Mirror(v, width, n) == Turned(v, n) * Pow2(width - n)
  {
    if n > 0 {
      MirrorShape(v, width, n - 1);
      AppendDigit(Turned(v, n - 1), Bit(v, n - 1), Pow2(width - n));
      assert Pow2(width - n + 1) == 2 * Pow2(width - n);
    }
  }

  lemma AppendDigit(q: nat, d: nat, p: nat)
    ensures q * (2 * p) + d * p == (2 * q + d) * p
  {}

  lemma MirrorBound(v: nat, width: nat)
    ensures Mirror(v, width, width) < Pow2(width)
  {
    MirrorShape(v, width, width);
  }

  lemma {:induction false} MirrorBits(v: nat, width: nat, n: nat, k: nat)
    requires n <= width
    ensures Bit(Mirror(v, width, n), k)
            == if width - n <= k < width then Bit(v, width - 1 - k) else 0
  {
    if n == 0 {
      BitZero(k);
    } else {
      var d, j, q := Bit(v, n - 1), width - n, Turned(v, n - 1);
      MirrorBits(v, width, n - 1, k);
      MirrorShape(v, width, n - 1);
      PowGrows(d, j);
      BitOfSum(q, d * Pow2(j), j + 1, k);
      BitOfSum(q, 0, j + 1, k);
      BitOfShifted(d, j, k);
      BitZero(k);
    }
  }

  lemma PowGrows(d: nat, k: nat)
    requires d <= 1
    ensures d * Pow2(k) < Pow2(k + 1)
  {}

  // Two values below Pow2(width) with the same bits are the same value.
  lemma {:induction false} SameBits(a: nat, b: nat, width: nat)
    requires a < Pow2(width) && b < Pow2(width)
    requires forall k :: 0 <= k < width ==> Bit(a, k) == Bit(b, k)
    ensures a == b
  {
    if width > 0 {
      assert Bit(a, 0) == Bit(b, 0);
      forall k | 0 <= k < width - 1 ensures Bit(a / 2, k) == Bit(b / 2, k) {
        assert Bit(a, k + 1) == Bit(b, k + 1);
      }
      SameBits(a / 2, b / 2, width - 1);
    }
  }

  /** Mirroring twice gives the value back. */
  lemma MirrorInvolution(v: nat, width: nat)
    requires v < Pow2(width)
    ensures Mirror(Mirror(v, width, width), width, width) == v
  {
    var m := Mirror(v, width, width);
    MirrorBound(m, width);
    forall k | 0 <= k < width ensures Bit(Mirror(m, width, width), k) == Bit(v, k) {
      MirrorBits(m, width, width, k);
      MirrorBits(v, width, width, width - 1 - k);
    }
    SameBits(Mirror(m, width, width), v, width);
  }

  // ---------------------------------------------------------------------------
  // Multiplication and division of polynomials over GF(2)
  // ---------------------------------------------------------------------------

  /** The product of two polynomials whose coefficients are the bits of `q` and `g`:
    * multiplication without carry. */
  function Times(q: nat, g: nat): nat {
    if q == 0 then 0 else Xor(if q % 2 == 1 then g else 0, 2 * Times(q / 2, g))
  }

  /** One more coefficient of the quotient. */
  lemma TimesStep(q: nat, e: nat, g: nat)
    requires e <= 1
    ensures Times(2 * q + e, g) == Xor(e * g, 2 * Times(q, g))
  {
    Digit(e, q);
    assert e * g == if e == 1 then g else 0;
    if 2 * q + e == 0 { assert Times(0, g) == 0; }
  }

  lemma {:induction false} TimesAdds(p: nat, q: nat, g: nat)
    ensures Times(Xor(p, q), g) == Xor(Times(p, g), Times(q, g))
    decreases p + q
  {
    hide Xor;
    if p == 0 || q == 0 {
      XorNone(p);
      XorNone(q);
      XorNone(Times(p, g));
      XorNone(Times(q, g));
    } else {
      var x, d, y, e := p / 2, p % 2, q / 2, q % 2;
      TimesAdds(x, y, g);
      TimesStep(x, d, g);
      TimesStep(y, e, g);
      XorStep(p, q);
      var f := if d == e then 0 else 1;
      TimesStep(Xor(x, y), f, g);
      XorDouble(Times(x, g), Times(y, g));
      XorSwap(d * g, 2 * Times(x, g), e * g, 2 * Times(y, g));
      XorOfMultiples(d, e, g);
    }
  }

  lemma XorNone(a: nat)
    ensures Xor(a, 0) == a && Xor(0, a) == a
  {}

  lemma XorOfMultiples(d: nat, e: nat, g: nat)
    requires d <= 1 && e <= 1
    ensures Xor(d * g, e * g) == if d == e then 0 else g
  {
    assert d * g == (if d == 1 then g else 0) && e * g == if e == 1 then g else 0;
    hide Xor;
    XorNone(0);
    XorNone(g);
    XorSelf(g);
  }

  /** The degree of a product is the sum of the degrees. */
  lemma {:induction false} TimesDegree(q: nat, g: nat, t: nat, d: nat)
    requires Pow2(t) <= q < 2 * Pow2(t) && Pow2(d) <= g < 2 * Pow2(d)
    ensures Pow2(t + d) <= Times(q, g) < 2 * Pow2(t + d)
  {
    hide Xor, Times;
    var h, e := q / 2, q % 2;
    assert q == 2 * h + e;
    TimesStep(h, e, g);
    OfBit(e, g);
    if t == 0 {
      TimesNone(g);
      XorNone(g);
    } else {
      TimesDegree(h, g, t - 1, d);
      PowUp(d, t + d - 1);
      TopStays(e * g, 2 * Times(h, g), t + d);
    }
  }

  lemma OfBit(e: nat, g: nat)
    requires e <= 1
    ensures e * g == if e == 1 then g else 0
  {}

  lemma {:induction false} PowUp(j: nat, k: nat)
    requires j <= k
    ensures Pow2(j) <= Pow2(k)
  {
    if j < k { PowUp(j, k - 1); }
  }

  lemma TopStays(x: nat, y: nat, k: nat)
    requires x < Pow2(k) <= y < 2 * Pow2(k)
    ensures Pow2(k) <= Xor(x, y) < 2 * Pow2(k)
  {
    hide Xor;
    var z := y - Pow2(k);
    XorSplit(0, 1, x, z, k);
    XorBound(x, z, k);
    XorNone(1);
  }

  /** `r` is what remains of `v` when it is divided by the polynomial `g` of degree `d`. */
  ghost predicate Remains(v: nat, g: nat, d: nat, r: nat) {
    r < Pow2(d) && exists q: nat :: Xor(Times(q, g), r) == v
  }

  /** A remainder is the only one. */
  lemma RemainsOnce(v: nat, g: nat, d: nat, r: nat, s: nat)
    requires Pow2(d) <= g < 2 * Pow2(d) && Remains(v, g, d, r) && Remains(v, g, d, s)
    ensures r == s
  {
    hide Xor, Times;
    var p: nat :| Xor(Times(p, g), r) == v;
    var q: nat :| Xor(Times(q, g), s) == v;
    SameQuotient(Times(p, g), r, Times(q, g), s);
    TimesAdds(p, q, g);
    XorBound(r, s, d);
    if Xor(p, q) > 0 {
      var t := DegreeOf(Xor(p, q));
      TimesDegree(Xor(p, q), g, t, d);
      PowUp(d, t + d);
    } else {
      assert Times(0, g) == 0 by { TimesNone(g); }
      XorNone(s);
      XorSelf(s);
      XorCancel(r, s, s);
    }
  }

  lemma TimesNone(g: nat)
    ensures Times(0, g) == 0
  {}

  lemma SameQuotient(a: nat, r: nat, b: nat, s: nat)
    requires Xor(a, r) == Xor(b, s)
    ensures Xor(a, b) == Xor(r, s)
  {
    hide Xor;
    XorAssoc(a, r, r);
    XorSelf(r);
    XorNone(a);
    XorAssoc(b, s, r);
    XorComm(s, r);
    XorComm(b, Xor(r, s));
    XorAssoc(Xor(r, s), b, b);
    XorSelf(b);
    XorNone(Xor(r, s));
  }

  lemma {:induction false} DegreeOf(q: nat) returns (t: nat)
    requires q > 0
    ensures Pow2(t) <= q < 2 * Pow2(t)
  {
    if q == 1 { t := 0; } else { t := DegreeOf(q / 2); t := t + 1; }
  }
}
