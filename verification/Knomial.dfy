/**
 The k-nomial tree of src/cart/crt_tree_knomial.c on tree ranks (the root is 0).

 The code works on base-`ratio` digits: the parent of a rank is that rank with its
 lowest non-zero digit cleared, and children are produced by filling the zero digits
 below it.  Digit buffers are arrays and the loops are proved against `Parent` and the
 list of all ranks that have the given parent.  Accumulators are 32-bit, as in the code.
 */
module Knomial {
  import opened Arith
  import opened Topologies

  // ----- Digits -----

  /** Base-r digits, lowest first; none for 0. */
  function Digits(x: nat, r: nat): (d: seq<nat>)
    requires r >= 2
    ensures x > 0 <==> d != []
  {
    if x == 0 then [] else [Rem(x, r)] + Digits(Quot(x, r), r)
  }

  function Value(d: seq<nat>, r: nat): nat {
    if d == [] then 0 else d[0] + Times(r, Value(d[1..], r))
  }

  lemma {:induction false} DigitsRoundTrip(x: nat, r: nat)
    requires r >= 2
    ensures Value(Digits(x, r), r) == x
  {
    if x > 0 {
      DigitsRoundTrip(Quot(x, r), r);
      assert Digits(x, r)[1..] == Digits(Quot(x, r), r);
      QuotRem(x, r);
    }
  }

  /** A rank with n digits is at least r^(n-1). */
  lemma {:induction false} DigitsBound(x: nat, r: nat)
    requires r >= 2 && x > 0
    ensures Scale(1, r, |Digits(x, r)| - 1) <= x
  {
    var q := Quot(x, r);
    if q > 0 {
      DigitsBound(q, r);
      TimesMono(r, Scale(1, r, |Digits(q, r)| - 1), q);
      QuotRem(x, r);
    }
  }

  /** A power of the ratio below 2^32 has an exponent below 32. */
  lemma ExponentFits(r: nat, d: nat)
    requires r >= 2 && Scale(1, r, d) < U32
    ensures d < 32
  {
    if d >= 32 {
      ScaleRatioMono(1, r, d);
      ScaleExponentMono(2, 32, d);
      ScaleIsPow2(32);
      Pow2At32();
    }
  }

  /** A 32-bit rank has at most 32 digits, so the digit buffer never overflows. */
  lemma DigitsFit(x: nat, r: nat)
    requires r >= 2 && x < U32
    ensures |Digits(x, r)| <= 32
  {
    if x > 0 {
      DigitsBound(x, r);
      ExponentFits(r, |Digits(x, r)| - 1);
    }
  }

  lemma DigitsStep(x: nat, r: nat)
    requires r >= 2 && x > 0
    ensures Digits(x, r) == [Rem(x, r)] + Digits(Quot(x, r), r)
  {
  }

  method DivRem(x: nat, r: nat) returns (q: nat, m: nat)
    requires r >= 2
    ensures q == Quot(x, r) && m == Rem(x, r)
  {
    QuotRemAreDivMod(x, r);
    q, m := x / r, x % r;
  }

  /** int_2_knomial_number */
  method IntToKnomial(x: nat, ratio: nat) returns (digits: array<nat>, ndigits: nat)
    requires ratio >= 2 && x < U32
    ensures fresh(digits) && digits.Length == MAX_RATIO
    ensures ndigits <= 32 && digits[..ndigits] == Digits(x, ratio)
    ensures forall i :: ndigits <= i < MAX_RATIO ==> digits[i] == 0
  {
    hide Digits, Rem, Quot;
    digits := new nat[MAX_RATIO](_ => 0);
    ndigits := 0;
    var rest := x;
    ghost var all := Digits(x, ratio);
    DigitsFit(x, ratio);
    while rest > 0
      invariant 0 <= rest && ndigits <= |all|
      invariant all == digits[..ndigits] + Digits(rest, ratio)
      invariant forall i :: ndigits <= i < MAX_RATIO ==> digits[i] == 0
    {
      ghost var done := digits[..ndigits];
      DigitsStep(rest, ratio);
      var digit;
      rest, digit := DivRem(rest, ratio);
      digits[ndigits] := digit;
      ndigits := ndigits + 1;
      assert digits[..ndigits] == done + [digit];
    }
  }

  /** knomial_number_2_int */
  method KnomialToInt(digits: array<nat>, ndigits: nat, ratio: nat) returns (index: nat)
    requires ratio >= 2 && ndigits <= digits.Length
    requires Value(digits[..ndigits], ratio) < U32
    ensures index == Value(digits[..ndigits], ratio)
  {
    ghost var all := digits[..ndigits];
    index := 0;
    var i := ndigits;
    while i > 0
      invariant 0 <= i <= ndigits
      invariant index == Value(all[i..], ratio)
    {
      i := i - 1;
      assert all[i..][1..] == all[i + 1..];
      SuffixSmaller(all, i, ratio);
      TimesIsProduct(ratio, index);
      index := (index * ratio + digits[i]) % U32;
    }
    assert all[0..] == all;
  }

  lemma {:induction false} SuffixSmaller(d: seq<nat>, i: nat, r: nat)
    requires r >= 1 && i <= |d|
    ensures Value(d[i..], r) <= Value(d, r)
  {
    if i == 0 {
      assert d[0..] == d;
    } else {
      SuffixSmaller(d[1..], i - 1, r);
      assert d[1..][i - 1..] == d[i..];
      var v := Value(d[1..], r);
      TimesFactorMono(1, r, v);
      TimesIsProduct(1, v);
    }
  }

  // ----- Parent -----

  /** knomial_get_parent; the root's own number has no digits and stays 0 */
  method GetParent(self: nat, ratio: nat) returns (parent: nat)
    requires ratio >= 2 && self < U32
    ensures parent == if self == 0 then 0 else KnomialParent(self, ratio)
  {
    var digits, ndigits := IntToKnomial(self, ratio);
    ghost var d := digits[..ndigits];
    DigitsRoundTrip(self, ratio);
    var i := 0;
    while i < ndigits && digits[i] == 0
      invariant 0 <= i <= ndigits
      invariant forall k :: 0 <= k < i ==> d[k] == 0
      invariant digits[..ndigits] == d
    {
      i := i + 1;
    }
    if i < ndigits {
      ClearLowest(self, ratio, i);
      digits[i] := 0;
      assert digits[..ndigits] == d[i := 0];
    } else {
      AllZero(self, ratio);
    }
    parent := KnomialToInt(digits, ndigits, ratio);
  }

  lemma {:induction false} ClearLowest(x: nat, r: nat, i: nat)
    requires r >= 2 && i < |Digits(x, r)|
    requires forall k :: 0 <= k < i ==> Digits(x, r)[k] == 0
    requires Digits(x, r)[i] != 0
    ensures x > 0 && Value(Digits(x, r)[i := 0], r) == KnomialParent(x, r)
    decreases i
  {
    var d := Digits(x, r);
    var rest := Digits(Quot(x, r), r);
    assert d[1..] == rest && d[0] == Rem(x, r);
    if i == 0 {
      assert d[0 := 0][1..] == rest;
      DigitsRoundTrip(Quot(x, r), r);
    } else {
      forall k | 0 <= k < i - 1
        ensures rest[k] == 0
      {
        assert rest[k] == d[k + 1];
      }
      assert rest[i - 1] == d[i];
      ClearLowest(Quot(x, r), r, i - 1);
      assert d[i := 0][1..] == rest[i - 1 := 0];
    }
  }

  /** Only 0 is written with zeros alone. */
  lemma {:induction false} AllZero(x: nat, r: nat)
    requires r >= 2
    requires forall k :: 0 <= k < |Digits(x, r)| ==> Digits(x, r)[k] == 0
    ensures x == 0
  {
    if x > 0 {
      var d := Digits(x, r);
      assert d[1..] == Digits(Quot(x, r), r) && d[0] == Rem(x, r);
      AllZero(Quot(x, r), r);
      QuotRem(x, r);
    }
  }

  /** How many non-zero digits there are. */
  function NonZero(d: seq<nat>): (n: nat)
    ensures n <= |d|
  {
    if d == [] then 0 else (if d[0] != 0 then 1 else 0) + NonZero(d[1..])
  }

  /** Taking parents from x reaches the root after this many steps. */
  function Depth(x: nat, r: nat): nat
    requires r >= 2
  {
    if x == 0 then 0 else 1 + Depth(KnomialParent(x, r), r)
  }

  lemma ParentOfMultiple(x: nat, r: nat)
    requires r >= 2 && x > 0
    ensures Times(r, x) > 0 && KnomialParent(Times(r, x), r) == Times(r, KnomialParent(x, r))
  {
    QuotRemUnique(r, x, 0);
  }

  lemma {:induction false} DepthOfMultiple(x: nat, r: nat)
    requires r >= 2
    ensures Depth(Times(r, x), r) == Depth(x, r)
  {
    if x > 0 {
      ParentOfMultiple(x, r);
      DepthOfMultiple(KnomialParent(x, r), r);
    }
  }

  /** The depth of a rank is the number of its non-zero digits, so at most its number of digits. */
  lemma {:induction false} DepthIsDigits(x: nat, r: nat)
    requires r >= 2
    ensures Depth(x, r) == NonZero(Digits(x, r)) <= |Digits(x, r)|
  {
    if x > 0 {
      DepthIsDigits(Quot(x, r), r);
      assert Digits(x, r)[1..] == Digits(Quot(x, r), r);
      QuotRem(x, r);
      DepthOfMultiple(Quot(x, r), r);
    }
  }

  // ----- Children -----

  lemma {:induction false} ParentOfScaled(x: nat, r: nat, d: nat)
    requires r >= 2 && x > 0
    ensures Scale(x, r, d) > 0 && KnomialParent(Scale(x, r, d), r) == Scale(KnomialParent(x, r), r, d)
  {
    if d > 0 {
      ParentOfScaled(x, r, d - 1);
      ParentOfMultiple(Scale(x, r, d - 1), r);
    }
  }

  /** A rank strictly between two consecutive multiples of r^d has its parent no lower than the smaller. */
  lemma {:induction false} ParentAbove(x: nat, r: nat, d: nat, z: nat)
    requires r >= 2
    requires Scale(z, r, d) < x < Scale(z + 1, r, d)
    ensures KnomialParent(x, r) >= Scale(z, r, d)
    decreases d
  {
    if d > 0 {
      var lo, hi, q := Scale(z, r, d - 1), Scale(z + 1, r, d - 1), Quot(x, r);
      QuotRem(x, r);
      assert lo <= q by { if q < lo { TimesMono(r, q, lo); } }
      TimesMono(r, lo, q);
      if Rem(x, r) == 0 {
        assert q < hi by { if hi <= q { TimesMono(r, hi, q); } }
        ParentAbove(q, r, d - 1, z);
        TimesMono(r, lo, KnomialParent(q, r));
      }
    }
  }

  /** Clearing digit d again gives the rank it was filled in. */
  lemma DigitParent(s: nat, i: nat, r: nat, d: nat)
    requires r >= 2 && Rem(s, r) == 0 && 0 < i < r
    ensures Scale(s + i, r, d) > 0 && KnomialParent(Scale(s + i, r, d), r) == Scale(s, r, d)
  {
    ParentOfScaled(s + i, r, d);
    QuotRem(s, r);
    QuotRemUnique(r, Quot(s, r), i);
    assert KnomialParent(s + i, r) == s;
  }

  /** Filling the empty digit d with i gives the next child, and there is none before the next multiple of r^d. */
  lemma NextChild(s: nat, i: nat, r: nat, d: nat)
    requires r >= 2 && Rem(s, r) == 0 && 0 < i < r
    ensures ChildrenBelow(Knomial(r), Scale(s, r, d), Scale(s + i + 1, r, d))
         == ChildrenBelow(Knomial(r), Scale(s, r, d), Scale(s + i, r, d)) + [Scale(s + i, r, d)]
  {
    hide ChildrenBelow, Scale, Rem, Quot, KnomialParent;
    var p, c, next := Scale(s, r, d), Scale(s + i, r, d), Scale(s + i + 1, r, d);
    ScaleMono(s, s + i, r, d);
    ScaleMono(s + i, s + i + 1, r, d);
    DigitParent(s, i, r, d);
    OneMore(Knomial(r), p, c);
    forall x | c + 1 <= x < next
      ensures KnomialParent(x, r) != p
    {
      ParentAbove(x, r, d, s + i);
    }
    NoneBetween(Knomial(r), p, c + 1, next);
  }

  /** No rank has a parent whose lowest digit is set. */
  lemma ParentEndsInZero(z: nat, r: nat)
    requires r >= 2 && z > 0
    ensures Rem(KnomialParent(z, r), r) == 0
  {
    if Rem(z, r) != 0 {
      QuotRemUnique(r, Quot(z, r), 0);
    } else {
      QuotRem(z, r);
      QuotRemUnique(r, KnomialParent(Quot(z, r), r), 0);
    }
  }

  /** Once digit d of the rank is set, every child lies below the next multiple of r^d. */
  lemma {:induction false} NoneAboveDigit(s: nat, r: nat, d: nat, x: nat)
    requires r >= 2 && Rem(s, r) != 0
    requires x >= Scale(s + 1, r, d)
    ensures x > 0 && KnomialParent(x, r) != Scale(s, r, d)
    decreases d
  {
    ScaleMono(s, s + 1, r, d);
    if d == 0 {
      ParentEndsInZero(x, r);
    } else {
      var lo, hi, q := Scale(s, r, d - 1), Scale(s + 1, r, d - 1), Quot(x, r);
      QuotRem(x, r);
      ScaleMono(s, s + 1, r, d - 1);
      assert hi <= q by { if q < hi { TimesMono(r, q, hi); } }
      if Rem(x, r) != 0 {
        TimesMono(r, lo, q);
      } else {
        NoneAboveDigit(s, r, d - 1, q);
        TimesInjective(r, KnomialParent(q, r), lo);
      }
    }
  }

  lemma TimesInjective(k: nat, a: nat, b: nat)
    requires k > 0
    ensures Times(k, a) == Times(k, b) <==> a == b
  {
    if a < b {
      TimesMono(k, a, b);
    } else if b < a {
      TimesMono(k, b, a);
    }
  }

  /** The rank is s * r^d, and inc is r^d. */
  ghost predicate AtDigit(self: nat, inc: nat, s: nat, r: nat, d: nat) {
    self == Scale(s, r, d) && inc == Scale(1, r, d)
  }

  lemma {:induction false} StepsOfInc(i: nat, inc: nat, s: nat, r: nat, d: nat)
    requires inc == Scale(1, r, d)
    ensures Scale(s + i, r, d) == Scale(s, r, d) + Times(inc, i)
  {
    if i > 0 {
      StepsOfInc(i - 1, inc, s, r, d);
      ScaleAdd(s + i - 1, 1, r, d);
    }
  }

  /** Going from self + i * inc to the next multiple of inc adds exactly that child. */
  ghost predicate AddsChild(self: nat, inc: nat, i: nat, r: nat)
    requires r >= 2
  {
    ChildrenBelow(Knomial(r), self, self + Times(inc, i + 1))
    == ChildrenBelow(Knomial(r), self, self + Times(inc, i)) + [self + Times(inc, i)]
  }

  ghost predicate EmptyDigit(self: nat, inc: nat, r: nat)
    requires r >= 2
  {
    forall i :: 0 < i < r ==> AddsChild(self, inc, i, r)
  }

  lemma NextChildAt(self: nat, inc: nat, i: nat, s: nat, r: nat, d: nat)
    requires r >= 2 && AtDigit(self, inc, s, r, d) && Rem(s, r) == 0 && 0 < i < r
    ensures AddsChild(self, inc, i, r)
  {
    hide ChildrenBelow, KnomialParent, TreeParent, Times;
    StepsOfInc(i, inc, s, r, d);
    StepsOfInc(i + 1, inc, s, r, d);
    NextChild(s, i, r, d);
  }

  lemma DigitIsEmpty(self: nat, inc: nat, s: nat, r: nat, d: nat)
    requires r >= 2 && AtDigit(self, inc, s, r, d) && Rem(s, r) == 0
    ensures EmptyDigit(self, inc, r)
  {
    forall i | 0 < i < r
      ensures AddsChild(self, inc, i, r)
    {
      NextChildAt(self, inc, i, s, r, d);
    }
  }

  /** An empty digit, seen from the next one. */
  lemma NextDigit(self: nat, inc: nat, s: nat, r: nat, d: nat)
    requires r >= 2 && AtDigit(self, inc, s, r, d) && Rem(s, r) == 0
    ensures AtDigit(self, Times(r, inc), Quot(s, r), r, d + 1)
    ensures Times(inc, r) == Times(r, inc) <= 2 * Times(inc, r - 1)
  {
    QuotRem(s, r);
    ScaleShift(Quot(s, r), r, d);
    TimesIsProduct(inc, r);
    TimesIsProduct(r, inc);
    TimesMono(inc, 1, r - 1);
  }

  lemma NoneAbove(self: nat, inc: nat, s: nat, r: nat, d: nat, n: nat)
    requires r >= 2 && AtDigit(self, inc, s, r, d) && Rem(s, r) != 0
    ensures NoChildIn(Knomial(r), self, self + inc, n)
  {
    ScaleAdd(s, 1, r, d);
    forall x | self + inc <= x < n
      ensures 0 < x && KnomialParent(x, r) != self
    {
      NoneAboveDigit(s, r, d, x);
    }
  }

  // ----- Candidates -----

  /** Digit d filled with i and more; inc is r^d. */
  function RowFrom(self: nat, inc: nat, i: nat, r: nat): seq<nat>
    decreases r - i
  {
    if i >= r then [] else [self + Times(inc, i)] + RowFrom(self, inc, i + 1, r)
  }

  /** Digits from d on filled, as long as they are empty and the buffer reaches; s is what is left of self. */
  function CandidatesAt(self: nat, inc: nat, s: nat, d: nat, r: nat): seq<nat>
    requires r >= 2
    decreases MAX_RATIO - d
  {
    if d >= MAX_RATIO || Rem(s, r) != 0 then []
    else RowFrom(self, inc, 1, r) + CandidatesAt(self, Times(r, inc), Quot(s, r), d + 1, r)
  }

  function Candidates(self: nat, r: nat): seq<nat>
    requires r >= 2
  {
    CandidatesAt(self, 1, self, 0, r)
  }

  lemma CandidatesNext(self: nat, inc: nat, s: nat, d: nat, r: nat)
    requires r >= 2
    ensures CandidatesAt(self, inc, s, d, r) ==
            if d >= MAX_RATIO || Rem(s, r) != 0 then []
            else RowFrom(self, inc, 1, r) + CandidatesAt(self, Times(r, inc), Quot(s, r), d + 1, r)
  {
  }

  /** The lowest digit and the others, also of a rank without digits. */
  lemma DigitsOf(s: nat, r: nat)
    requires r >= 2
    ensures if s == 0 then Digits(s, r) == [] && Rem(s, r) == 0 && Quot(s, r) == 0
            else Digits(s, r) == [Rem(s, r)] + Digits(Quot(s, r), r)
  {
  }

  lemma RowNext(self: nat, inc: nat, i: nat, r: nat, rest: seq<nat>, n: nat)
    requires i < r
    ensures
      var c, q, t := self + Times(inc, i), RowFrom(self, inc, i, r) + rest, RowFrom(self, inc, i + 1, r) + rest;
      && Below(q, n) == (if c >= n then [] else [c] + Below(t, n))
      && Wrapped(q, n) == (if c % U32 >= n then [] else [c % U32] + Wrapped(t, n))
      && Survives(q, n) == (if c >= n then c % U32 >= n else Survives(t, n))
  {
    hide Times;
    assert (RowFrom(self, inc, i, r) + rest)[1..] == RowFrom(self, inc, i + 1, r) + rest;
  }

  lemma RowEnd(self: nat, inc: nat, r: nat, rest: seq<nat>)
    ensures RowFrom(self, inc, r, r) + rest == rest
  {
  }

  lemma {:induction false} RowChildren(self: nat, inc: nat, i: nat, r: nat, rest: seq<nat>, n: nat)
    requires r >= 2 && 0 < i <= r && EmptyDigit(self, inc, r)
    requires ChildrenAre(Knomial(r), self, self + Times(inc, r), rest, n)
    ensures ChildrenAre(Knomial(r), self, self + Times(inc, i), RowFrom(self, inc, i, r) + rest, n)
    decreases r - i
  {
    hide ChildrenAre, ChildrenBelow, Below, Times, RowFrom;
    if i == r {
      RowEnd(self, inc, r, rest);
    } else {
      RowNext(self, inc, i, r, rest, n);
      RowChildren(self, inc, i + 1, r, rest, n);
      assert AddsChild(self, inc, i, r);
      OneChild(Knomial(r), self, self + Times(inc, i), self + Times(inc, i + 1), RowFrom(self, inc, i, r) + rest,
               RowFrom(self, inc, i + 1, r) + rest, n);
    }
  }

  lemma {:induction false} ChildrenAt(self: nat, inc: nat, s: nat, d: nat, r: nat, n: nat)
    requires r >= 2 && d <= MAX_RATIO && n <= U32 && AtDigit(self, inc, s, r, d)
    ensures ChildrenAre(Knomial(r), self, self + inc, CandidatesAt(self, inc, s, d, r), n)
    decreases MAX_RATIO - d
  {
    if Rem(s, r) != 0 {
      NoneAbove(self, inc, s, r, d, n);
      NoMoreChildren(Knomial(r), self, self + inc, n);
    } else if d == MAX_RATIO {
      if inc < U32 {
        ExponentFits(r, d);
      }
      NoMoreChildren(Knomial(r), self, self + inc, n);
    } else {
      DigitIsEmpty(self, inc, s, r, d);
      NextDigit(self, inc, s, r, d);
      ChildrenAt(self, Times(r, inc), Quot(s, r), d + 1, r, n);
      RowChildren(self, inc, 1, r, CandidatesAt(self, Times(r, inc), Quot(s, r), d + 1, r), n);
    }
  }

  /** Without wrap-around the candidates inside the group are exactly the children. */
  lemma CandidatesExact(self: nat, r: nat, n: nat)
    requires r >= 2 && n <= U32
    ensures Below(Candidates(self, r), n) == ChildrenBelow(Knomial(r), self, n)
  {
    hide ChildrenBelow, TreeParent, CandidatesAt, Below;
    NoneUpToSelf(Knomial(r), self);
    ChildrenAt(self, 1, self, 0, r, n);
  }

  /**
   On all 32-bit inputs, the code lists exactly the children if and only if the first candidate
   outside the group does not wrap into it.
   */
  lemma ListedIff(self: nat, r: nat, n: nat)
    requires r >= 2 && self < n < U32
    ensures Wrapped(Candidates(self, r), n) == ChildrenBelow(Knomial(r), self, n)
       <==> Survives(Candidates(self, r), n)
  {
    hide *;
    CandidatesExact(self, r, n);
    WrappedIff(Candidates(self, r), n);
  }

  lemma {:induction false} RowSurvives(self: nat, inc: nat, i: nat, r: nat, rest: seq<nat>, n: nat)
    requires 0 < i <= r && self + Times(inc, i - 1) < n && inc < 2 * n && 3 * n <= U32
    requires self + Times(inc, r - 1) < n ==> Survives(rest, n)
    ensures Survives(RowFrom(self, inc, i, r) + rest, n)
    decreases r - i
  {
    if i == r {
      RowEnd(self, inc, r, rest);
    } else {
      RowNext(self, inc, i, r, rest, n);
      assert Times(inc, i) == inc + Times(inc, i - 1);
      if self + Times(inc, i) < n {
        RowSurvives(self, inc, i + 1, r, rest, n);
      }
    }
  }

  lemma {:induction false} SmallSurvivesAt(self: nat, inc: nat, s: nat, d: nat, r: nat, n: nat)
    requires r >= 2 && self < n && inc < 2 * n && 3 * n <= U32 && AtDigit(self, inc, s, r, d)
    ensures Survives(CandidatesAt(self, inc, s, d, r), n)
    decreases MAX_RATIO - d
  {
    if d < MAX_RATIO && Rem(s, r) == 0 {
      NextDigit(self, inc, s, r, d);
      if self + Times(inc, r - 1) < n {
        SmallSurvivesAt(self, Times(r, inc), Quot(s, r), d + 1, r, n);
      }
      RowSurvives(self, inc, 1, r, CandidatesAt(self, Times(r, inc), Quot(s, r), d + 1, r), n);
    }
  }

  /** In a group of at most a third of 2^32 nothing wraps. */
  lemma SmallSurvives(self: nat, r: nat, n: nat)
    requires r >= 2 && self < n && 3 * n <= U32
    ensures Survives(Candidates(self, r), n)
  {
    SmallSurvivesAt(self, 1, self, 0, r, n);
  }

  lemma PowersOfTwo(d: nat)
    requires d <= 32
    ensures if d == 32 then Scale(1, 2, d) == U32 else Scale(1, 2, d) <= 0x8000_0000
  {
    ScaleIsPow2(32);
    Pow2At32();
    if d < 32 {
      ScaleExponentMono(2, d, 31);
      TimesIsProduct(2, Scale(1, 2, 31));
    }
  }

  /** A candidate of rank 0 of a binomial tree, and those after it. */
  lemma BinomialNext(inc: nat, d: nat, r: nat, n: nat)
    requires d < MAX_RATIO && r == 2
    ensures
      var rest := CandidatesAt(0, Times(r, inc), 0, d + 1, r);
      Wrapped(CandidatesAt(0, inc, 0, d, r), n) == if inc % U32 >= n then [] else [inc % U32] + Wrapped(rest, n)
  {
    DigitsOf(0, r);
    CandidatesNext(0, inc, 0, d, r);
    hide *;
    var rest := CandidatesAt(0, Times(r, inc), 0, d + 1, r);
    RowNext(0, inc, 1, r, rest, n);
    RowEnd(0, inc, r, rest);
    TimesIsProduct(inc, 1);
  }

  lemma {:induction false} PowersWrap(d: nat, r: nat, n: nat)
    requires d <= 32 && r == 2 && n == 0x8000_0001
    ensures 0 in Wrapped(CandidatesAt(0, Scale(1, r, d), 0, d, r), n)
    decreases 32 - d
  {
    PowersOfTwo(d);
    BinomialNext(Scale(1, r, d), d, r, n);
    if d < 32 {
      assert Scale(1, r, d + 1) == Times(r, Scale(1, r, d));
      PowersWrap(d + 1, r, n);
    }
    hide *;
  }

  /** It does go wrong: in a binomial tree of 2^31 + 1 ranks the root lists itself as its child. */
  lemma WrapsToRoot()
    ensures
      var n := 0x8000_0001;
      0 in Wrapped(Candidates(0, 2), n) && 0 !in ChildrenBelow(Knomial(2), 0, n)
  {
    PowersWrap(0, 2, 0x8000_0001);
    ChildrenBelowExact(Knomial(2), 0, 0x8000_0001);
    hide ChildrenBelow, CandidatesAt, Wrapped;
  }

  // ----- The loops -----

  lemma ModAdd(a: nat, k: nat)
    ensures (a + U32 * k) % U32 == a % U32
  {
  }

  lemma MulSplit(q: nat, m: nat, i: nat)
    ensures (U32 * q + m) * i == U32 * (q * i) + i * m
  {
  }

  /** Wrapped increments give wrapped candidates. */
  lemma ModSteps(a: nat, inc: nat, i: nat)
    ensures (a + i * (inc % U32)) % U32 == (a + Times(inc, i)) % U32
  {
    TimesIsProduct(inc, i);
    var q, m := inc / U32, inc % U32;
    MulSplit(q, m, i);
    assert inc == U32 * q + m;
    var im, qi := i * m, q * i;
    ModAdd(a + im, qi);
    assert Times(inc, i) == U32 * qi + im;
  }

  /** The inner loop of knomial_get_children: fill a digit, stopping at the first rank outside the group. */
  method FillDigit(children: array?<nat>, filled: nat, self: nat, size: nat, ratio: nat, inc: nat, ghost trueInc: nat,
                   ghost rest: seq<nat>, ghost before: seq<nat>)
    returns (nchildren: nat, outside: bool, ghost done: seq<nat>)
    requires MIN_RATIO <= ratio && inc == trueInc % U32 && Written(children, filled, before)
    requires children != null ==>
      children.Length >= |before + Wrapped(RowFrom(self, trueInc, 1, ratio) + rest, size)|
    modifies if children == null then {} else {children}
    ensures Written(children, nchildren, done)
    ensures before + Wrapped(RowFrom(self, trueInc, 1, ratio) + rest, size)
         == done + if outside then [] else Wrapped(rest, size)
  {
    hide RowFrom, Wrapped, Below, Survives, Times;
    nchildren, done := filled, before;
    ghost var all := before + Wrapped(RowFrom(self, trueInc, 1, ratio) + rest, size);
    var i := 1;
    while i < ratio
      invariant 1 <= i <= ratio && Written(children, nchildren, done)
      invariant all == done + Wrapped(RowFrom(self, trueInc, i, ratio) + rest, size)
    {
      RowNext(self, trueInc, i, ratio, rest, size);
      var child := ChildRank(self, i, inc, trueInc);
      if child >= size {
        return nchildren, true, done;
      }
      TakeOne(all, done, child, Wrapped(RowFrom(self, trueInc, i + 1, ratio) + rest, size));
      nchildren := Put(children, nchildren, child, done);
      done := done + [child];
      i := i + 1;
    }
    RowEnd(self, trueInc, ratio, rest);
    outside := false;
  }

  method ChildRank(self: nat, i: nat, inc: nat, ghost trueInc: nat) returns (child: nat)
    requires inc == trueInc % U32
    ensures child == (self + Times(trueInc, i)) % U32
  {
    ModSteps(self, trueInc, i);
    child := (self + i * inc) % U32;
  }

  method NextInc(inc: nat, ratio: nat, ghost trueInc: nat) returns (next: nat)
    requires inc == trueInc % U32
    ensures next == Times(ratio, trueInc) % U32
  {
    ModSteps(0, trueInc, ratio);
    TimesIsProduct(trueInc, ratio);
    TimesIsProduct(ratio, trueInc);
    next := inc * ratio % U32;
  }

  /** From digit d on, the buffer holds the digits of s, and zeros above them. */
  ghost predicate Remaining(digits: seq<nat>, n: nat, d: nat, s: nat, r: nat)
    requires r >= 2
  {
    && n <= |digits| == MAX_RATIO && (forall i :: n <= i < MAX_RATIO ==> digits[i] == 0)
    && if d <= n then digits[d..n] == Digits(s, r) else s == 0
  }

  lemma SeesDigit(digits: seq<nat>, n: nat, d: nat, s: nat, r: nat)
    requires r >= 2 && d < MAX_RATIO && Remaining(digits, n, d, s, r)
    ensures d > n || digits[d] == 0 <==> Rem(s, r) == 0
    ensures Remaining(digits, n, d + 1, Quot(s, r), r)
  {
    DigitsOf(s, r);
    hide Digits, Rem, Quot;
    if d < n {
      assert digits[d..n] == [digits[d]] + digits[d + 1..n];
      assert digits[d..n][1..] == digits[d + 1..n];
    }
  }

  /** knomial_get_children: counts the children and, unless the buffer is null, writes them. */
  method GetChildren(children: array?<nat>, self: nat, size: nat, ratio: nat) returns (nchildren: nat)
    requires MIN_RATIO <= ratio <= MAX_RATIO
    requires self < size < U32
    requires children != null ==> children.Length >= |Wrapped(Candidates(self, ratio), size)|
    modifies if children == null then {} else {children}
    ensures Written(children, nchildren, Wrapped(Candidates(self, ratio), size))
  {
    hide Times, RowFrom, Wrapped, CandidatesAt, Rem, Quot;
    var digits, ndigits := IntToKnomial(self, ratio);
    ghost var number := digits[..];
    assert Remaining(number, ndigits, 0, self, ratio) by { assert number[0..ndigits] == digits[..ndigits]; }
    hide Remaining;
    var inc: nat := 1;
    var digit := 0;
    nchildren := 0;
    ghost var trueInc: nat, s: nat, done: seq<nat>, all := 1, self, [], Wrapped(Candidates(self, ratio), size);
    while digit < MAX_RATIO && (digit > ndigits || digits[digit] == 0)
      invariant digit <= MAX_RATIO && inc == trueInc % U32 && Written(children, nchildren, done)
      invariant digits[..] == number && Remaining(number, ndigits, digit, s, ratio)
      invariant all == done + Wrapped(CandidatesAt(self, trueInc, s, digit, ratio), size)
      decreases MAX_RATIO - digit
    {
      var outside;
      SeesDigit(number, ndigits, digit, s, ratio);
      CandidatesNext(self, trueInc, s, digit, ratio);
      ghost var rest := CandidatesAt(self, Times(ratio, trueInc), Quot(s, ratio), digit + 1, ratio);
      assert all == done + Wrapped(RowFrom(self, trueInc, 1, ratio) + rest, size);
      nchildren, outside, done := FillDigit(children, nchildren, self, size, ratio, inc, trueInc, rest, done);
      if outside {
        assert all == done;
        return;
      }
      inc := NextInc(inc, ratio, trueInc);
      digit, trueInc, s := digit + 1, Times(ratio, trueInc), Quot(s, ratio);
    }
    if digit < MAX_RATIO {
      SeesDigit(number, ndigits, digit, s, ratio);
    }
    CandidatesNext(self, trueInc, s, digit, ratio);
    WrappedNothing(size);
    assert all == done;
  }

  lemma WrappedNothing(n: nat)
    ensures Wrapped([], n) == []
  {
  }
}
