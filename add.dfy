/** addnum and _addnum: *pa += b. */
module Add {
  import opened Digits
  import opened Numbers

  /** How far a read pointer into x has advanced once the walk reaches position p. */
  function Clamp(v: int, hi: nat): nat
  {
    if v < 0 then 0 else if v > hi then hi else v
  }

  /** The n digits of x aligned at position e, radix-complemented when x is the
      operand that carries the minus sign of a mixed-sign sum. */
  ghost function Operand(x: Number, e: int, n: nat, compl: bool, r: nat): (s: seq<nat>)
    requires Valid(x, r)
    ensures |s| == n && IsDigits(s, r)
  {
    WindowDigits(x, e, n, r);
    if compl then Comp(Window(x, e, n), r) else Window(x, e, n)
  }

  /** The sum of the two digit streams _addnum feeds its carry loop, in terms of
      the operands' values: plain magnitudes when the signs agree, and r^n plus
      the signed sum when they differ (complement one operand, carry in 1). */
  lemma OperandsSum(a: Number, b: Number, e: int, n: nat, r: nat)
    requires r >= 2 && Valid(a, r) && Valid(b, r)
    requires e == Min(a.exp, b.exp) && n == Max(MSD(a), MSD(b)) - e
    ensures Scaled(a, e, r) < Pow(r, n) && Scaled(b, e, r) < Pow(r, n)
    ensures a.sign == b.sign ==>
      Val(Operand(a, e, n, false, r), r) + Val(Operand(b, e, n, false, r), r) == Scaled(a, e, r) + Scaled(b, e, r)
    ensures a.sign != b.sign ==>
      Val(Operand(a, e, n, a.sign == -1, r), r) + Val(Operand(b, e, n, b.sign == -1, r), r) + 1
        == Pow(r, n) + SignedScaled(a, e, r) + SignedScaled(b, e, r)
  {
    WindowVal(a, e, n, r);
    WindowVal(b, e, n, r);
    WindowDigits(a, e, n, r);
    WindowDigits(b, e, n, r);
    ValBound(Window(a, e, n), r);
    ValBound(Window(b, e, n), r);
    SignedScaledSign(a, e, r);
    SignedScaledSign(b, e, r);
    if a.sign != b.sign {
      if a.sign == -1 {
        ValComp(Window(a, e, n), r);
      } else {
        ValComp(Window(b, e, n), r);
      }
    }
  }

  lemma CarryAtMostOne(x: nat, r: nat)
    requires r >= 1 && x < 2 * r
    ensures 0 <= x / r <= 1 && x % r < r
  {
  }

  /** The second loop of _addnum on a negative sum: complement the n digits
      and add one, dropping the carry out of the top, so that the r^n
      complement left by the first loop becomes the magnitude it stands for. */
  method RecomplementMagnitude(mant: array<nat>, n: nat, radix: nat)
    requires radix >= 2 && n <= mant.Length && IsDigits(mant[..n], radix)
    modifies mant
    ensures IsDigits(mant[..n], radix) && mant[n..] == old(mant[n..])
    ensures Val(old(mant[..n]), radix) != 0 ==> Val(mant[..n], radix) + Val(old(mant[..n]), radix) == Pow(radix, n)
    ensures Val(old(mant[..n]), radix) == 0 ==> Val(mant[..n], radix) == 0
  {
    ghost var orig := mant[..n];
    ghost var comp := Comp(orig, radix);
    var cy: nat := 1;
    var k := 0;
    var cdigits := n;
    while cdigits > 0
      invariant 0 <= k <= n && cdigits == n - k && cy <= 1
      invariant mant[k..] == old(mant[k..]) && IsDigits(mant[..k], radix)
      invariant Val(mant[..k], radix) + cy * Pow(radix, k) == Val(comp[..k], radix) + 1
    {
      assert mant[k] == orig[k];
      cy := ComplementStep(mant, k, cy, radix, comp);
      k := k + 1;
      cdigits := cdigits - 1;
    }
    assert comp[..k] == comp;
    RecomplementValue(orig, mant[..n], cy, radix);
  }

  /** One pass of the re-complement loop: digit k is complemented, the carry
      added, the digit written back and the carry passed on. */
  method ComplementStep(mant: array<nat>, k: nat, cy: nat, radix: nat, ghost comp: seq<nat>)
    returns (nextCy: nat)
    requires radix >= 2 && k < mant.Length && k < |comp| && cy <= 1
    requires mant[k] < radix && comp[k] == radix - 1 - mant[k]
    requires IsDigits(mant[..k], radix)
    requires Val(mant[..k], radix) + cy * Pow(radix, k) == Val(comp[..k], radix) + 1
    modifies mant
    ensures nextCy <= 1 && mant[k + 1..] == old(mant[k + 1..]) && IsDigits(mant[..k + 1], radix)
    ensures Val(mant[..k + 1], radix) + nextCy * Pow(radix, k + 1)
      == Val(comp[..k + 1], radix) + 1
  {
    ghost var out := mant[..k];
    ghost var zs := Zeros(|comp|);
    ValAllZero(zs[..k], radix);
    ValAllZero(zs[..k + 1], radix);
    var x := radix - 1 - mant[k] + cy;
    AddStep(out, comp, zs, cy, 1, x, radix);
    CarryAtMostOne(x, radix);
    mant[k] := x % radix;
    assert mant[..k + 1] == out + [x % radix];
    nextCy := x / radix;
  }

  lemma RecomplementArith(vc: nat, vo: nat, vr: nat, cy: nat, p: nat)
    requires vc + vo + 1 == p && vr < p && cy <= 1 && vr + cy * p == vc + 1
    ensures vo != 0 ==> vr + vo == p
    ensures vo == 0 ==> vr == 0
  {
    if cy == 0 {
      assert vr == vc + 1;
    } else {
      assert cy * p == p;
    }
  }

  /** What the re-complement loop leaves: r^n minus the complement it was
      given, or zero when that complement was itself zero. */
  lemma RecomplementValue(orig: seq<nat>, res: seq<nat>, cy: nat, r: nat)
    requires r >= 2 && IsDigits(orig, r) && IsDigits(res, r) && |res| == |orig| && cy <= 1
    requires Val(res, r) + cy * Pow(r, |orig|) == Val(Comp(orig, r), r) + 1
    ensures Val(orig, r) != 0 ==> Val(res, r) + Val(orig, r) == Pow(r, |orig|)
    ensures Val(orig, r) == 0 ==> Val(res, r) == 0
  {
    ValComp(orig, r);
    ValBound(res, r);
    RecomplementArith(Val(Comp(orig, r), r), Val(orig, r), Val(res, r), cy, Pow(r, |orig|));
  }

  /** The read test of _addnum's first loop: an operand supplies a digit
      exactly at the positions it covers, and its pointer then moves on. */
  lemma PaddedRead(x: Number, cexp: int, total: nat, cdigits: nat, mexp: int, ix: nat)
    requires cexp <= x.exp && MSD(x) <= cexp + total && 0 < cdigits <= total
    requires mexp == cexp + total - cdigits && ix == Clamp(mexp - x.exp, |x.mant|)
    ensures (mexp >= x.exp && cdigits + x.exp - cexp > total - |x.mant|) <==> x.exp <= mexp < MSD(x)
    ensures x.exp <= mexp < MSD(x) ==>
      ix < |x.mant| && x.mant[ix] == DigitAt(x, mexp) && Clamp(mexp + 1 - x.exp, |x.mant|) == ix + 1
    ensures !(x.exp <= mexp < MSD(x)) ==> DigitAt(x, mexp) == 0 && Clamp(mexp + 1 - x.exp, |x.mant|) == ix
  {
  }

  /** One operand's read in the first loop of _addnum: its digit at position
      mexp, 0 where the operand is padded, complemented when flagged; the read
      pointer moves on only past a digit the operand has. */
  method ReadDigit(x: Number, cexp: int, total: nat, cdigits: nat, mexp: int, ix: nat, compl: bool, radix: nat)
    returns (d: nat, next: nat)
    requires radix >= 2 && Valid(x, radix)
    requires cexp <= x.exp && MSD(x) <= cexp + total && 0 < cdigits <= total
    requires mexp == cexp + total - cdigits && ix == Clamp(mexp - x.exp, |x.mant|)
    ensures d == Operand(x, cexp, total, compl, radix)[total - cdigits]
    ensures next == Clamp(mexp + 1 - x.exp, |x.mant|)
  {
    PaddedRead(x, cexp, total, cdigits, mexp, ix);
    d, next := 0, ix;
    if mexp >= x.exp && cdigits + x.exp - cexp > total - |x.mant| {
      d := x.mant[ix];
      next := ix + 1;
    }
    ghost var w := Window(x, cexp, total);
    assert d == w[total - cdigits];
    WindowDigits(x, cexp, total, radix);
    if compl {
      d := radix - 1 - d;
      assert d == Comp(w, radix)[total - cdigits];
    }
  }

  /** The first loop of _addnum: walk the positions cexp .. cexp+total-1,
      take each operand's digit where it has one and 0 where it is padded,
      complement it when flagged, and write the sum digit, carrying into the
      next position. */
  method AddAligned(a: Number, b: Number, cexp: int, total: nat, fcompla: bool, fcomplb: bool,
                    cyIn: nat, mant: array<nat>, radix: nat) returns (cy: nat)
    requires radix >= 2 && Valid(a, radix) && Valid(b, radix)
    requires cexp <= a.exp && cexp <= b.exp && MSD(a) <= cexp + total && MSD(b) <= cexp + total
    requires total < mant.Length && cyIn <= 1
    modifies mant
    ensures cy <= 1 && IsDigits(mant[..total], radix) && mant[total..] == old(mant[total..])
    ensures Val(mant[..total], radix) + cy * Pow(radix, total)
      == Val(Operand(a, cexp, total, fcompla, radix), radix) + Val(Operand(b, cexp, total, fcomplb, radix), radix) + cyIn
  {
    ghost var pa := Operand(a, cexp, total, fcompla, radix);
    ghost var pb := Operand(b, cexp, total, fcomplb, radix);
    ghost var out := [];
    var cdigits := total;
    var mexp := cexp;
    var ia, ib, ic := 0, 0, 0;
    cy := cyIn;
    while cdigits > 0
      invariant 0 <= cdigits <= total && ic == total - cdigits && mexp == cexp + ic
      invariant ia == Clamp(mexp - a.exp, |a.mant|) && ib == Clamp(mexp - b.exp, |b.mant|)
      invariant cy <= 1 && |out| == ic
      invariant mant[..ic] == out && mant[total..] == old(mant[total..])
      invariant IsDigits(out, radix)
      invariant Val(out, radix) + cy * Pow(radix, ic) == Val(pa[..ic], radix) + Val(pb[..ic], radix) + cyIn
    {
      var da, db;
      da, ia := ReadDigit(a, cexp, total, cdigits, mexp, ia, fcompla, radix);
      db, ib := ReadDigit(b, cexp, total, cdigits, mexp, ib, fcomplb, radix);
      var x := da + db + cy;
      AddStep(out, pa, pb, cy, cyIn, x, radix);
      cy := x;
      CarryAtMostOne(cy, radix);
      mant[ic] := cy % radix;
      out := out + [cy % radix];
      ic := ic + 1;
      cy := cy / radix;
      cdigits := cdigits - 1;
      mexp := mexp + 1;
    }
    assert pa[..ic] == pa && pb[..ic] == pb;
  }

  /** What the first loop's result means for the sum: with agreeing signs the
      digits and carry hold |a| + |b|; with differing signs a carry out says
      the signed sum D is not negative and the digits hold D, and no carry says
      D is negative and the digits hold its complement r^n + D, never zero. */
  lemma AlignedSum(a: Number, b: Number, e: int, n: nat, v: nat, cy: nat, r: nat)
    requires r >= 2 && Valid(a, r) && Valid(b, r)
    requires e == Min(a.exp, b.exp) && n == Max(MSD(a), MSD(b)) - e
    requires v < Pow(r, n) && cy <= 1
    requires v + cy * Pow(r, n)
      == Val(Operand(a, e, n, a.sign != b.sign && a.sign == -1, r), r)
       + Val(Operand(b, e, n, a.sign != b.sign && b.sign == -1, r), r) + (if a.sign != b.sign then 1 else 0)
    ensures a.sign == b.sign ==> v + cy * Pow(r, n) == Scaled(a, e, r) + Scaled(b, e, r)
    ensures a.sign != b.sign && cy != 0 ==> v == SignedScaled(a, e, r) + SignedScaled(b, e, r)
    ensures a.sign != b.sign && cy == 0 ==> 0 < v && v == Pow(r, n) + SignedScaled(a, e, r) + SignedScaled(b, e, r)
  {
    OperandsSum(a, b, e, n, r);
    SignedScaledSign(a, e, r);
    SignedScaledSign(b, e, r);
    if cy == 0 {
      assert v + cy * Pow(r, n) == v;
    } else {
      assert v + cy * Pow(r, n) == v + Pow(r, n);
    }
  }

  /** The closing loop of _addnum, _mulnum and _divnum: drop zero top digits,
      keeping at least one. */
  method StripZeros(mant: array<nat>, n: nat, radix: nat) returns (cdigit: nat)
    requires 1 <= n <= mant.Length
    ensures 1 <= cdigit <= n
    ensures cdigit == 1 || mant[cdigit - 1] != 0
    ensures AllZero(mant[cdigit..n])
    ensures Val(mant[..cdigit], radix) == Val(mant[..n], radix)
  {
    cdigit := n;
    while cdigit > 1 && mant[cdigit - 1] == 0
      invariant 1 <= cdigit <= n
      invariant AllZero(mant[cdigit..n])
      invariant Val(mant[..cdigit], radix) == Val(mant[..n], radix)
    {
      assert mant[..cdigit][..cdigit - 1] == mant[..cdigit - 1];
      ValDropTopZero(mant[..cdigit], radix);
      cdigit := cdigit - 1;
    }
  }

  /** The tail of _addnum after its first loop. With agreeing signs a carry
      out of the top becomes one more digit and the sign is the operands'; with
      differing signs a carry out means the sum D is not negative, and no carry
      means D is negative and the digits, its complement, are turned back into
      its magnitude. Either way sign times the digits' value is D. */
  method SettleSum(mant: array<nat>, n: nat, cy: nat, mixed: bool, same: int, radix: nat, ghost D: int)
    returns (sign: int, cdigit: nat)
    requires radix >= 2 && n < mant.Length && IsDigits(mant[..n], radix) && mant[n] == 0 && cy <= 1
    requires same == 1 || same == -1
    requires !mixed ==> D == same * (Val(mant[..n], radix) + cy * Pow(radix, n))
    requires mixed && cy != 0 ==> D == Val(mant[..n], radix)
    requires mixed && cy == 0 ==> 0 < Val(mant[..n], radix) && Val(mant[..n], radix) == Pow(radix, n) + D
    modifies mant
    ensures n <= cdigit <= n + (if mixed then 0 else 1) && IsDigits(mant[..cdigit], radix)
    ensures (sign == 1 || sign == -1) && sign * Val(mant[..cdigit], radix) == D
    ensures !mixed ==> sign == same
    ensures mixed ==> (sign == 1 <==> D >= 0)
  {
    ValBound(mant[..n], radix);
    cdigit := n;
    if cy != 0 && !mixed {
      mant[n] := cy;
      cdigit := n + 1;
      ValPrefixStep(mant[..], n, radix);
      assert mant[..cdigit][..n] == mant[..n];
    } else {
      assert mant[..n + 1][..n] == mant[..n];
    }
    if !mixed {
      sign := same;
    } else if cy != 0 {
      sign := 1;
    } else {
      sign := -1;
      RecomplementMagnitude(mant, cdigit, radix);
    }
  }

  /** The digits that StripZeros keeps, read out of the buffer: a normalized
      digit string with the value of the first n digits. */
  method Trimmed(mant: array<nat>, n: nat, radix: nat) returns (digits: seq<nat>)
    requires 1 <= n <= mant.Length && IsDigits(mant[..n], radix)
    ensures 1 <= |digits| <= n && IsDigits(digits, radix) && (|digits| == 1 || digits[|digits| - 1] != 0)
    ensures Val(digits, radix) == Val(mant[..n], radix)
    ensures digits == mant[..|digits|]
  {
    ghost var m := mant[..n];
    var cdigit := StripZeros(mant, n, radix);
    digits := mant[..cdigit];
    assert digits == m[..cdigit];
    DigitsPrefix(m, cdigit, radix);
  }

  /** With agreeing signs the signed sum is that sign times the magnitudes' sum. */
  lemma SameSignSum(a: Number, b: Number, e: int, r: nat)
    requires e <= a.exp && e <= b.exp && a.sign == b.sign && (a.sign == 1 || a.sign == -1)
    ensures SignedScaled(a, e, r) + SignedScaled(b, e, r) == a.sign * (Scaled(a, e, r) + Scaled(b, e, r))
  {
  }

  /** What the first loop's sum gives SettleSum to work with. */
  lemma SettleInputs(a: Number, b: Number, e: int, n: nat, v: nat, cy: nat, r: nat)
    requires r >= 2 && Valid(a, r) && Valid(b, r)
    requires e == Min(a.exp, b.exp) && n == Max(MSD(a), MSD(b)) - e
    requires v < Pow(r, n) && cy <= 1
    requires v + cy * Pow(r, n)
      == Val(Operand(a, e, n, a.sign != b.sign && a.sign == -1, r), r)
       + Val(Operand(b, e, n, a.sign != b.sign && b.sign == -1, r), r) + (if a.sign != b.sign then 1 else 0)
    ensures a.sign == b.sign ==> SignedScaled(a, e, r) + SignedScaled(b, e, r) == a.sign * (v + cy * Pow(r, n))
    ensures a.sign != b.sign && cy != 0 ==> SignedScaled(a, e, r) + SignedScaled(b, e, r) == v
    ensures a.sign != b.sign && cy == 0 ==> 0 < v && v == Pow(r, n) + (SignedScaled(a, e, r) + SignedScaled(b, e, r))
  {
    AlignedSum(a, b, e, n, v, cy, r);
    if a.sign == b.sign {
      SameSignSum(a, b, e, r);
    }
  }

  /** _addnum: both operands nonzero. */
  method AddNumCore(a: Number, b: Number, radix: nat) returns (c: Number)
    requires radix >= 2 && Valid(a, radix) && Valid(b, radix)
    ensures Valid(c, radix) && Normalized(c)
    ensures c.exp == Min(a.exp, b.exp)
    ensures |c.mant| <= Max(MSD(a), MSD(b)) - c.exp + (if a.sign == b.sign then 1 else 0)
    ensures SignedScaled(c, c.exp, radix) == SignedScaled(a, c.exp, radix) + SignedScaled(b, c.exp, radix)
    ensures a.sign == b.sign ==> c.sign == a.sign
    ensures a.sign != b.sign ==> (c.sign == 1 <==> SignedScaled(a, c.exp, radix) + SignedScaled(b, c.exp, radix) >= 0)
  {
    // Overlap of the aligned operands, padding zeros included.
    var cdigits := Max(MSD(a), MSD(b)) - Min(a.exp, b.exp);
    var mant := new nat[cdigits + 1](_ => 0);
    var cexp := Min(a.exp, b.exp);
    var cy: nat := 0;
    var fcompla, fcomplb := false, false;
    if a.sign != b.sign {
      cy := 1;
      fcompla := a.sign == -1;
      fcomplb := b.sign == -1;
    }
    cy := AddAligned(a, b, cexp, cdigits, fcompla, fcomplb, cy, mant, radix);
    ghost var D := SignedScaled(a, cexp, radix) + SignedScaled(b, cexp, radix);
    ghost var v0, P := Val(mant[..cdigits], radix), Pow(radix, cdigits);
    assert mant[cdigits] == 0;
    ValBound(mant[..cdigits], radix);
    SettleInputs(a, b, cexp, cdigits, v0, cy, radix);
    var sign, cdigit := SettleSum(mant, cdigits, cy, fcompla || fcomplb, a.sign, radix, D);
    var digits := Trimmed(mant, cdigit, radix);
    MakeNumber(sign, cexp, digits, radix);
    c := Number(sign, cexp, digits);
  }

  /** A zero digit string denotes 0 at every scale. */
  lemma ZeroFormScaled(x: Number, L: int, r: nat)
    requires IsZeroForm(x) && L <= x.exp && (x.sign == 1 || x.sign == -1)
    ensures Scaled(x, L, r) == 0 && SignedScaled(x, L, r) == 0
  {
    assert x.mant == [0];
    assert Val(x.mant, r) == Val([], r) + 0 * Pow(r, 0);
  }

  /** addnum: *pa += b. A zero b leaves a as it is, a zero a is replaced by a
      copy of b, and two nonzero operands go through _addnum. */
  method AddNum(a: Number, b: Number, radix: nat) returns (c: Number)
    requires radix >= 2 && Valid(a, radix) && Valid(b, radix)
    ensures Valid(c, radix)
    ensures IsZeroForm(b) ==> c == a
    ensures !IsZeroForm(b) && IsZeroForm(a) ==> c == b
    ensures !IsZeroForm(a) && !IsZeroForm(b) ==> c.exp == Min(a.exp, b.exp) && Normalized(c)
    ensures Normalized(a) && Normalized(b) ==> Normalized(c)
    ensures Min(a.exp, b.exp) <= c.exp
    ensures SignedScaled(c, Min(a.exp, b.exp), radix)
      == SignedScaled(a, Min(a.exp, b.exp), radix) + SignedScaled(b, Min(a.exp, b.exp), radix)
    ensures a.sign == b.sign ==> c.sign == a.sign
    ensures !IsZeroForm(a) && !IsZeroForm(b) && a.sign != b.sign ==>
      (c.sign == 1 <==> SignedScaled(a, c.exp, radix) + SignedScaled(b, c.exp, radix) >= 0)
  {
    var L := Min(a.exp, b.exp);
    if |b.mant| > 1 || b.mant[0] != 0 {
      if |a.mant| > 1 || a.mant[0] != 0 {
        c := AddNumCore(a, b, radix);
      } else {
        c := b;
        ZeroFormScaled(a, L, radix);
      }
    } else {
      c := a;
      ZeroFormScaled(b, L, radix);
    }
  }
}
