/**
 Multiplication and division by an arbitrary ratio, defined by repeated addition and
 subtraction.  Proofs about trees go by induction on these; TimesIsProduct and
 QuotRemAreDivMod tie them to the operators the code uses.
 */
module Arith {

  /** k * x */
  function Times(k: nat, x: nat): nat {
    if x == 0 then 0 else k + Times(k, x - 1)
  }

  /** x / r */
  function Quot(x: nat, r: nat): (q: nat)
    requires r >= 2
    ensures x > 0 ==> q < x
    ensures q > 0 <==> x >= r
  {
    if x < r then 0 else 1 + Quot(x - r, r)
  }

  /** x % r */
  function Rem(x: nat, r: nat): (m: nat)
    requires r >= 2
    ensures m < r && m <= x
  {
    if x < r then x else Rem(x - r, r)
  }

  lemma {:induction false} TimesIsProduct(k: nat, x: nat)
    ensures Times(k, x) == k * x
  {
    if x > 0 {
      TimesIsProduct(k, x - 1);
    }
  }

  lemma {:induction false} TimesAdd(k: nat, a: nat, b: nat)
    ensures Times(k, a + b) == Times(k, a) + Times(k, b)
  {
    if b > 0 {
      TimesAdd(k, a, b - 1);
    }
  }

  lemma {:induction false} TimesMono(k: nat, a: nat, b: nat)
    requires a <= b
    ensures Times(k, a) <= Times(k, b)
    ensures k > 0 && a < b ==> Times(k, a) + k <= Times(k, b)
    decreases b - a
  {
    if a < b {
      TimesMono(k, a, b - 1);
    }
  }

  lemma {:induction false} TimesFactorMono(j: nat, k: nat, x: nat)
    requires j <= k
    ensures Times(j, x) <= Times(k, x)
  {
    if x > 0 {
      TimesFactorMono(j, k, x - 1);
    }
  }

  lemma {:induction false} QuotRem(x: nat, r: nat)
    requires r >= 2
    ensures x == Times(r, Quot(x, r)) + Rem(x, r)
  {
    if x >= r {
      QuotRem(x - r, r);
    }
  }

  /** Quotient and remainder are the only pair of their kind. */
  lemma {:induction false} QuotRemUnique(r: nat, q: nat, m: nat)
    requires r >= 2 && m < r
    ensures Quot(Times(r, q) + m, r) == q && Rem(Times(r, q) + m, r) == m
  {
    if q > 0 {
      QuotRemUnique(r, q - 1, m);
      assert Times(r, q) + m - r == Times(r, q - 1) + m;
    }
  }

  lemma {:induction false} QuotRemAreDivMod(x: nat, r: nat)
    requires r >= 2
    ensures Quot(x, r) == x / r && Rem(x, r) == x % r
  {
    if x >= r {
      QuotRemAreDivMod(x - r, r);
      DivModStep(x, r);
    } else {
      DivModSmall(x, r);
    }
  }

  lemma DivModSmall(x: nat, r: nat)
    requires x < r
    ensures x / r == 0 && x % r == x
  {
  }

  lemma DivModStep(x: nat, r: nat)
    requires 0 < r <= x
    ensures x / r == 1 + (x - r) / r && x % r == (x - r) % r
  {
    DivModUnique(x, r, 1 + (x - r) / r, (x - r) % r);
  }

  lemma DivModUnique(x: nat, r: nat, q: nat, m: nat)
    requires m < r && x == r * q + m
    ensures x / r == q && x % r == m
  {
    assert r * (x / r - q) == m - x % r;
    MultipleBound(r, x / r - q);
  }

  lemma MultipleBound(r: nat, d: int)
    ensures d >= 1 ==> r * d >= r
    ensures d <= -1 ==> r * d <= -1 * r
  {
  }

  /** x * r^d */
  function Scale(x: nat, r: nat, d: nat): nat {
    if d == 0 then x else Times(r, Scale(x, r, d - 1))
  }

  lemma {:induction false} ScaleAdd(a: nat, b: nat, r: nat, d: nat)
    ensures Scale(a + b, r, d) == Scale(a, r, d) + Scale(b, r, d)
  {
    if d > 0 {
      ScaleAdd(a, b, r, d - 1);
      TimesAdd(r, Scale(a, r, d - 1), Scale(b, r, d - 1));
    }
  }

  lemma {:induction false} ScaleMono(a: nat, b: nat, r: nat, d: nat)
    requires a <= b && r >= 1
    ensures Scale(a, r, d) <= Scale(b, r, d)
    ensures a < b ==> Scale(a, r, d) < Scale(b, r, d)
  {
    if d > 0 {
      ScaleMono(a, b, r, d - 1);
      TimesMono(r, Scale(a, r, d - 1), Scale(b, r, d - 1));
    }
  }

  /** Moving a factor r into the exponent. */
  lemma {:induction false} ScaleShift(x: nat, r: nat, d: nat)
    ensures Scale(Times(r, x), r, d) == Scale(x, r, d + 1)
  {
    if d > 0 {
      ScaleShift(x, r, d - 1);
    }
  }

  lemma {:induction false} ScaleRatioMono(x: nat, r: nat, d: nat)
    requires r >= 2
    ensures Scale(x, 2, d) <= Scale(x, r, d)
  {
    if d > 0 {
      ScaleRatioMono(x, r, d - 1);
      TimesMono(2, Scale(x, 2, d - 1), Scale(x, r, d - 1));
      TimesFactorMono(2, r, Scale(x, r, d - 1));
    }
  }

  lemma {:induction false} ScaleExponentMono(r: nat, d: nat, e: nat)
    requires d <= e && r >= 1
    ensures Scale(1, r, d) <= Scale(1, r, e)
    decreases e - d
  {
    if d < e {
      ScaleExponentMono(r, d, e - 1);
      var p := Scale(1, r, e - 1);
      TimesFactorMono(1, r, p);
      TimesIsProduct(1, p);
    }
  }

  function Pow2(d: nat): nat {
    if d == 0 then 1 else 2 * Pow2(d - 1)
  }

  lemma {:induction false} ScaleIsPow2(d: nat)
    ensures Scale(1, 2, d) == Pow2(d)
  {
    if d > 0 {
      ScaleIsPow2(d - 1);
      TimesIsProduct(2, Scale(1, 2, d - 1));
    }
  }

  lemma Pow2At32()
    ensures Pow2(32) == 0x1_0000_0000
  {
    Pow2Plus8(0);
    Pow2Plus8(8);
    Pow2Plus8(16);
    Pow2Plus8(24);
  }

  lemma Pow2Plus8(d: nat)
    ensures Pow2(d + 8) == 256 * Pow2(d)
  {
    assert Pow2(d + 2) == 4 * Pow2(d);
    assert Pow2(d + 4) == 4 * Pow2(d + 2);
    assert Pow2(d + 6) == 4 * Pow2(d + 4);
  }
}
