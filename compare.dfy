/** equnum, lessnum and zernum: the read-only scans of num.cpp. Each is a
    method that walks the digits as the C++ loop does, proved against a
    specification predicate; the lemmas then say what the predicates mean for
    the numbers' values. */
module Compare {
  import opened Digits
  import opened Numbers

  /** The k-th digit counting down from the top, 0 once past the bottom digit. */
  function TopDigit(m: seq<nat>, k: nat): nat
  {
    if k < |m| then m[|m| - 1 - k] else 0
  }

  /** What equnum decides: the same MSD, then the same digits from the top,
      the shorter operand padded with zeros at the bottom. */
  ghost predicate SameDigits(a: Number, b: Number)
  {
    MSD(a) == MSD(b) &&
    forall k :: 0 <= k < Max(|a.mant|, |b.mant|) ==> TopDigit(a.mant, k) == TopDigit(b.mant, k)
  }

  /** Among the top n digits, the first from the top where a and b differ has a smaller digit in a. */
  ghost predicate FirstDiffLess(a: Number, b: Number, n: nat)
  {
    exists k :: 0 <= k < n && TopDigit(a.mant, k) < TopDigit(b.mant, k) &&
      forall j :: 0 <= j < k ==> TopDigit(a.mant, j) == TopDigit(b.mant, j)
  }

  /** What lessnum decides. The sign is never consulted. */
  ghost predicate DigitsLess(a: Number, b: Number)
  {
    MSD(a) < MSD(b) || (MSD(a) == MSD(b) && FirstDiffLess(a, b, Max(|a.mant|, |b.mant|)))
  }

  method ZerNum(a: Number) returns (z: bool)
    ensures z == AllZero(a.mant)
  {
    var length := |a.mant|;
    var index := 0;
    while length > 0
      invariant 0 <= length && index + length == |a.mant|
      invariant forall i :: 0 <= i < index ==> a.mant[i] == 0
    {
      length := length - 1;
      if a.mant[index] != 0 {
        return false;
      }
      index := index + 1;
    }
    return true;
  }

  method EquNum(a: Number, b: Number) returns (eq: bool)
    ensures eq == SameDigits(a, b)
  {
    var diff := MSD(a) - MSD(b);
    if diff < 0 {
      return false;
    } else if diff > 0 {
      return false;
    }
    var ia := |a.mant| - 1;
    var ib := |b.mant| - 1;
    var cdigits := Max(|a.mant|, |b.mant|);
    var ccdigits := cdigits;
    while cdigits > 0
      invariant 0 <= cdigits <= ccdigits
      invariant ia == |a.mant| - 1 - Min(ccdigits - cdigits, |a.mant|)
      invariant ib == |b.mant| - 1 - Min(ccdigits - cdigits, |b.mant|)
      invariant forall k :: 0 <= k < ccdigits - cdigits ==> TopDigit(a.mant, k) == TopDigit(b.mant, k)
    {
      var da := 0;
      if cdigits > ccdigits - |a.mant| {
        da := a.mant[ia];
        ia := ia - 1;
      }
      var db := 0;
      if cdigits > ccdigits - |b.mant| {
        db := b.mant[ib];
        ib := ib - 1;
      }
      assert da == TopDigit(a.mant, ccdigits - cdigits) && db == TopDigit(b.mant, ccdigits - cdigits);
      if da != db {
        return false;
      }
      cdigits := cdigits - 1;
    }
    return true;
  }

  method LessNum(a: Number, b: Number) returns (lt: bool)
    ensures lt == DigitsLess(a, b)
  {
    var diff := MSD(a) - MSD(b);
    if diff < 0 {
      return true;
    } else if diff > 0 {
      return false;
    }
    var ia := |a.mant| - 1;
    var ib := |b.mant| - 1;
    var cdigits := Max(|a.mant|, |b.mant|);
    var ccdigits := cdigits;
    while cdigits > 0
      invariant 0 <= cdigits <= ccdigits
      invariant ia == |a.mant| - 1 - Min(ccdigits - cdigits, |a.mant|)
      invariant ib == |b.mant| - 1 - Min(ccdigits - cdigits, |b.mant|)
      invariant forall k :: 0 <= k < ccdigits - cdigits ==> TopDigit(a.mant, k) == TopDigit(b.mant, k)
    {
      var da := 0;
      if cdigits > ccdigits - |a.mant| {
        da := a.mant[ia];
        ia := ia - 1;
      }
      var db := 0;
      if cdigits > ccdigits - |b.mant| {
        db := b.mant[ib];
        ib := ib - 1;
      }
      var k := ccdigits - cdigits;
      assert da == TopDigit(a.mant, k) && db == TopDigit(b.mant, k);
      diff := (da as int) - (db as int);
      if diff != 0 {
        return diff < 0;
      }
      cdigits := cdigits - 1;
    }
    return false;
  }

  lemma TopDigitIsWindow(a: Number, L: int, n: nat, k: nat)
    requires L <= a.exp && MSD(a) == L + n && k < n
    ensures TopDigit(a.mant, k) == Window(a, L, n)[n - 1 - k]
  {
    assert Window(a, L, n)[n - 1 - k] == DigitAt(a, MSD(a) - 1 - k);
  }

  /** Two operands with the same MSD: counting down from the top is counting
      down the zero-padded windows of digits below that MSD. */
  lemma TopDigitsAreWindows(a: Number, b: Number, r: nat)
    requires Valid(a, r) && Valid(b, r) && MSD(a) == MSD(b)
    ensures var n := MSD(a) - Min(a.exp, b.exp);
            n == Max(|a.mant|, |b.mant|) &&
            IsDigits(Window(a, Min(a.exp, b.exp), n), r) && IsDigits(Window(b, Min(a.exp, b.exp), n), r) &&
            forall k :: 0 <= k < n ==>
              TopDigit(a.mant, k) == Window(a, Min(a.exp, b.exp), n)[n - 1 - k] &&
              TopDigit(b.mant, k) == Window(b, Min(a.exp, b.exp), n)[n - 1 - k]
  {
    var L := Min(a.exp, b.exp);
    var n := MSD(a) - L;
    WindowDigits(a, L, n, r);
    WindowDigits(b, L, n, r);
    forall k | 0 <= k < n
      ensures TopDigit(a.mant, k) == Window(a, L, n)[n - 1 - k] && TopDigit(b.mant, k) == Window(b, L, n)[n - 1 - k]
    {
      TopDigitIsWindow(a, L, n, k);
      TopDigitIsWindow(b, L, n, k);
    }
  }

  lemma SameDigitsAreSameWindows(a: Number, b: Number, r: nat)
    requires Valid(a, r) && Valid(b, r) && MSD(a) == MSD(b)
    ensures var n := MSD(a) - Min(a.exp, b.exp);
            SameDigits(a, b) <==> Window(a, Min(a.exp, b.exp), n) == Window(b, Min(a.exp, b.exp), n)
  {
    var L := Min(a.exp, b.exp);
    var n := MSD(a) - L;
    var wa, wb := Window(a, L, n), Window(b, L, n);
    TopDigitsAreWindows(a, b, r);
    if SameDigits(a, b) {
      forall i | 0 <= i < n ensures wa[i] == wb[i] {
        assert TopDigit(a.mant, n - 1 - i) == TopDigit(b.mant, n - 1 - i);
      }
    }
  }

  lemma FirstDiffLessIsWindowLess(a: Number, b: Number, r: nat)
    requires r >= 1 && Valid(a, r) && Valid(b, r) && MSD(a) == MSD(b)
    ensures var n := MSD(a) - Min(a.exp, b.exp);
            FirstDiffLess(a, b, n) <==> Val(Window(a, Min(a.exp, b.exp), n), r) < Val(Window(b, Min(a.exp, b.exp), n), r)
  {
    var L := Min(a.exp, b.exp);
    var n := MSD(a) - L;
    if FirstDiffLess(a, b, n) {
      FirstDiffGivesWindowLess(a, b, r);
    }
    if Val(Window(a, L, n), r) < Val(Window(b, L, n), r) {
      WindowLessGivesFirstDiff(a, b, r);
    }
  }

  lemma FirstDiffGivesWindowLess(a: Number, b: Number, r: nat)
    requires r >= 1 && Valid(a, r) && Valid(b, r) && MSD(a) == MSD(b)
    requires FirstDiffLess(a, b, MSD(a) - Min(a.exp, b.exp))
    ensures var n := MSD(a) - Min(a.exp, b.exp);
            Val(Window(a, Min(a.exp, b.exp), n), r) < Val(Window(b, Min(a.exp, b.exp), n), r)
  {
    var L := Min(a.exp, b.exp);
    var n := MSD(a) - L;
    var wa, wb := Window(a, L, n), Window(b, L, n);
    TopDigitsAreWindows(a, b, r);
    var k :| 0 <= k < n && TopDigit(a.mant, k) < TopDigit(b.mant, k) &&
      forall j :: 0 <= j < k ==> TopDigit(a.mant, j) == TopDigit(b.mant, j);
    forall j | n - 1 - k < j < n ensures wa[j] == wb[j] {
      assert TopDigit(a.mant, n - 1 - j) == TopDigit(b.mant, n - 1 - j);
    }
    ValLessAt(wa, wb, n - 1 - k, r);
  }

  lemma WindowLessGivesFirstDiff(a: Number, b: Number, r: nat)
    requires r >= 1 && Valid(a, r) && Valid(b, r) && MSD(a) == MSD(b)
    requires var n := MSD(a) - Min(a.exp, b.exp);
             Val(Window(a, Min(a.exp, b.exp), n), r) < Val(Window(b, Min(a.exp, b.exp), n), r)
    ensures FirstDiffLess(a, b, MSD(a) - Min(a.exp, b.exp))
  {
    var L := Min(a.exp, b.exp);
    var n := MSD(a) - L;
    var wa, wb := Window(a, L, n), Window(b, L, n);
    TopDigitsAreWindows(a, b, r);
    ValLessHasWitness(wa, wb, r);
    var i :| 0 <= i < |wa| && wa[i] < wb[i] && forall j :: i < j < |wa| ==> wa[j] == wb[j];
    var k := n - 1 - i;
    assert TopDigit(a.mant, k) < TopDigit(b.mant, k);
    forall j | 0 <= j < k ensures TopDigit(a.mant, j) == TopDigit(b.mant, j) {
      assert wa[n - 1 - j] == wb[n - 1 - j];
    }
  }

  /** equnum decides equality of magnitudes for normalized operands, except
      that two zeros are equal only at the same exponent. */
  lemma EquNumMeansEqualValue(a: Number, b: Number, r: nat)
    requires r >= 2 && Valid(a, r) && Valid(b, r) && Normalized(a) && Normalized(b)
    ensures var L := Min(a.exp, b.exp);
            SameDigits(a, b) <==> Scaled(a, L, r) == Scaled(b, L, r) && (IsZeroForm(a) ==> a.exp == b.exp)
  {
    var L := Min(a.exp, b.exp);
    NormalizedTop(a, r);
    NormalizedTop(b, r);
    ScaledBounds(a, L, r);
    ScaledBounds(b, L, r);
    if MSD(a) == MSD(b) {
      var n := MSD(a) - L;
      SameDigitsAreSameWindows(a, b, r);
      TopDigitsAreWindows(a, b, r);
      WindowVal(a, L, n, r);
      WindowVal(b, L, n, r);
      ValInjective(Window(a, L, n), Window(b, L, n), r);
    } else if MSD(a) < MSD(b) {
      if !IsZeroForm(b) { MSDOrder(a, b, L, r); }
    } else {
      if !IsZeroForm(a) { MSDOrder(b, a, L, r); }
    }
  }

  /** A smaller MSD means a smaller magnitude, unless the larger-MSD operand is zero. */
  lemma MSDOrder(a: Number, b: Number, L: int, r: nat)
    requires r >= 2 && Valid(a, r) && Valid(b, r) && Normalized(b) && !IsZeroForm(b)
    requires L <= a.exp && L <= b.exp && MSD(a) < MSD(b)
    ensures Scaled(a, L, r) < Scaled(b, L, r)
  {
    NormalizedTop(b, r);
    ScaledBounds(a, L, r);
    ScaledBounds(b, L, r);
    PowMono(r, MSD(a) - L, MSD(b) - 1 - L);
  }

  /** lessnum is the magnitude comparison |a| < |b| for nonzero normalized operands. */
  lemma LessNumMeansLessValue(a: Number, b: Number, r: nat)
    requires r >= 2 && Valid(a, r) && Valid(b, r) && Normalized(a) && Normalized(b)
    requires !IsZeroForm(a) && !IsZeroForm(b)
    ensures var L := Min(a.exp, b.exp);
            DigitsLess(a, b) <==> Scaled(a, L, r) < Scaled(b, L, r)
  {
    var L := Min(a.exp, b.exp);
    if MSD(a) == MSD(b) {
      var n := MSD(a) - L;
      FirstDiffLessIsWindowLess(a, b, r);
      TopDigitsAreWindows(a, b, r);
      WindowVal(a, L, n, r);
      WindowVal(b, L, n, r);
    } else if MSD(a) < MSD(b) {
      MSDOrder(a, b, L, r);
    } else {
      MSDOrder(b, a, L, r);
    }
  }

  /** With a zero operand lessnum still decides by MSD first: a zero is "less"
      than a nonzero number exactly when its MSD is not above the other's, and
      a nonzero number is "less" than a zero exactly when its MSD is below. */
  lemma LessNumWithZero(a: Number, b: Number, r: nat)
    requires r >= 2 && Valid(a, r) && Valid(b, r) && Normalized(a) && Normalized(b)
    requires IsZeroForm(a) || IsZeroForm(b)
    ensures DigitsLess(a, b) <==> if IsZeroForm(a) && !IsZeroForm(b) then MSD(a) <= MSD(b) else MSD(a) < MSD(b)
  {
    var n := Max(|a.mant|, |b.mant|);
    if MSD(a) == MSD(b) {
      if IsZeroForm(a) && !IsZeroForm(b) {
        NormalizedTop(b, r);
        assert TopDigit(a.mant, 0) < TopDigit(b.mant, 0);
      } else {
        assert forall k :: 0 <= k < n ==> TopDigit(b.mant, k) == 0;
      }
    }
  }

  lemma EquNumReflexive(a: Number)
    ensures SameDigits(a, a)
  {
  }

  lemma LessNumIrreflexive(a: Number)
    ensures !DigitsLess(a, a)
  {
  }
}
