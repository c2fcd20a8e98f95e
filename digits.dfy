/** Digit sequences in an arbitrary radix, least significant digit first,
    and the natural number they denote. */
module Digits {

  function Pow(r: nat, n: nat): (p: nat)
    ensures r >= 1 ==> p >= 1
  {
    if n == 0 then 1 else r * Pow(r, n - 1)
  }

  /** Every entry is a digit of radix `r`. */
  predicate IsDigits(s: seq<nat>, r: nat)
  {
    forall i :: 0 <= i < |s| ==> s[i] < r
  }

  /** Overwriting one digit with a digit keeps a digit string. */
  lemma DigitsUpdate(s: seq<nat>, k: nat, d: nat, r: nat)
    requires IsDigits(s, r) && k < |s| && d < r
    ensures IsDigits(s[k := d], r)
  {
  }

  predicate AllZero(s: seq<nat>)
  {
    forall i :: 0 <= i < |s| ==> s[i] == 0
  }

  /** Sum of s[i] * r^i. */
  function Val(s: seq<nat>, r: nat): nat
  {
    if |s| == 0 then 0 else Val(s[..|s| - 1], r) + s[|s| - 1] * Pow(r, |s| - 1)
  }

  function Zeros(n: nat): (z: seq<nat>)
    ensures |z| == n && AllZero(z)
  {
    seq(n, _ => 0)
  }

  /** Radix complement of each digit: d becomes r - 1 - d. */
  function Comp(s: seq<nat>, r: nat): (c: seq<nat>)
    requires IsDigits(s, r)
    ensures |c| == |s| && IsDigits(c, r)
    ensures forall i :: 0 <= i < |s| ==> c[i] == r - 1 - s[i]
  {
    seq(|s|, i requires 0 <= i < |s| => r - 1 - s[i])
  }

  lemma MulAssoc(a: nat, b: nat, c: nat)
    ensures a * (b * c) == (a * b) * c
  {
  }

  lemma MulComm(a: nat, b: nat)
    ensures a * b == b * a
  {
  }

  lemma MulSwap(a: nat, b: nat, c: nat)
    ensures a * (b * c) == b * (a * c)
  {
  }

  lemma {:induction false} PowAdd(r: nat, m: nat, n: nat)
    ensures Pow(r, m + n) == Pow(r, m) * Pow(r, n)
  {
    if n > 0 {
      PowAdd(r, m, n - 1);
      var a, b := Pow(r, m), Pow(r, n - 1);
      assert Pow(r, m + n) == r * (a * b);
      assert Pow(r, n) == r * b;
      MulSwap(r, a, b);
    }
  }

  lemma {:induction false} PowMono(r: nat, m: nat, n: nat)
    requires r >= 1 && m <= n
    ensures Pow(r, m) <= Pow(r, n)
  {
    if m < n {
      PowMono(r, m, n - 1);
      MulLeft(1, r, Pow(r, n - 1));
      assert Pow(r, n) == r * Pow(r, n - 1);
    }
  }

  lemma ValSnoc(s: seq<nat>, d: nat, r: nat)
    ensures Val(s + [d], r) == Val(s, r) + d * Pow(r, |s|)
  {
    assert (s + [d])[..|s|] == s;
  }

  lemma ValPrefixStep(s: seq<nat>, k: nat, r: nat)
    requires k < |s|
    ensures Val(s[..k + 1], r) == Val(s[..k], r) + s[k] * Pow(r, k)
  {
    assert s[..k + 1] == s[..k] + [s[k]];
    ValSnoc(s[..k], s[k], r);
  }

  /** The arithmetic step of ValBound: one more digit below the radix. */
  lemma DigitStepBound(v: nat, d: nat, p: nat, r: nat)
    requires v < p && d < r
    ensures v + d * p < r * p
  {
    assert d * p <= (r - 1) * p by { MulLeft(d, r - 1, p); }
    assert (r - 1) * p + p == r * p;
  }

  lemma MulLeft(a: nat, b: nat, c: nat)
    requires a <= b
    ensures a * c <= b * c
  {
  }

  lemma MulStrict(a: nat, b: nat, c: nat)
    requires a < b && c >= 1
    ensures a * c < b * c
  {
    MulLeft(a + 1, b, c);
  }

  lemma {:induction false} ValBound(s: seq<nat>, r: nat)
    requires r >= 1 && IsDigits(s, r)
    ensures Val(s, r) < Pow(r, |s|)
  {
    if |s| > 0 {
      var n := |s| - 1;
      ValBound(s[..n], r);
      DigitStepBound(Val(s[..n], r), s[n], Pow(r, n), r);
    }
  }

  /** A nonzero top digit puts the value at or above r^(|s|-1). */
  lemma ValTopBound(s: seq<nat>, r: nat)
    requires r >= 1 && |s| >= 1 && s[|s| - 1] >= 1
    ensures Pow(r, |s| - 1) <= Val(s, r)
  {
  }

  lemma SplitArith(a: nat, pk: nat, v0: nat, d: nat, q: nat)
    ensures a + pk * v0 + d * (pk * q) == a + pk * (v0 + d * q)
  {
  }

  lemma {:induction false} ValSplit(s: seq<nat>, k: nat, r: nat)
    requires k <= |s|
    ensures Val(s, r) == Val(s[..k], r) + Pow(r, k) * Val(s[k..], r)
  {
    if k < |s| {
      var n := |s| - 1;
      var s0 := s[..n];
      ValSplit(s0, k, r);
      assert s0[..k] == s[..k];
      assert s[k..] == s0[k..] + [s[n]];
      assert s == s0 + [s[n]];
      ValSnoc(s0, s[n], r);
      ValSnoc(s0[k..], s[n], r);
      PowAdd(r, k, n - k);
      var a, pk, v0, d, q := Val(s[..k], r), Pow(r, k), Val(s0[k..], r), s[n], Pow(r, n - k);
      assert Val(s0, r) == a + pk * v0;
      assert Pow(r, n) == pk * q;
      assert Val(s, r) == Val(s0, r) + d * Pow(r, n);
      assert Val(s[k..], r) == v0 + d * q;
      SplitArith(a, pk, v0, d, q);
    } else {
      assert s[..k] == s;
    }
  }

  lemma ValCons(d: nat, s: seq<nat>, r: nat)
    ensures Val([d] + s, r) == d + r * Val(s, r)
  {
    var t := [d] + s;
    ValSplit(t, 1, r);
    assert t[..1] == [d];
    assert t[1..] == s;
    assert Val([d], r) == d by { assert [d][..0] == []; }
  }

  lemma {:induction false} ValAllZero(s: seq<nat>, r: nat)
    requires r >= 1
    ensures Val(s, r) == 0 <==> AllZero(s)
  {
    if |s| > 0 {
      var n := |s| - 1;
      ValAllZero(s[..n], r);
      if AllZero(s) {
        assert AllZero(s[..n]);
      }
      if Val(s, r) == 0 {
        assert s[n] == 0 by {
          if s[n] != 0 {
            MulLeft(1, s[n], Pow(r, n));
          }
        }
        forall i | 0 <= i < |s| ensures s[i] == 0 {
          if i < n { assert s[..n][i] == s[i]; }
        }
      }
    }
  }

  lemma ValZerosPrefix(k: nat, s: seq<nat>, r: nat)
    ensures Val(Zeros(k) + s, r) == Pow(r, k) * Val(s, r)
  {
    var t := Zeros(k) + s;
    ValSplit(t, k, r);
    assert t[..k] == Zeros(k);
    assert t[k..] == s;
    if r >= 1 {
      ValAllZero(Zeros(k), r);
    } else {
      ValZeroRadixPrefix(k, r);
    }
  }

  /** Radix 0 is never used by a caller; this keeps ValZerosPrefix free of a requires. */
  lemma {:induction false} ValZeroRadixPrefix(k: nat, r: nat)
    requires r == 0
    ensures Val(Zeros(k), r) == 0
  {
    if k > 0 {
      assert Zeros(k)[..k - 1] == Zeros(k - 1);
      ValZeroRadixPrefix(k - 1, r);
    }
  }

  lemma {:induction false} ValZerosSuffix(s: seq<nat>, k: nat, r: nat)
    ensures Val(s + Zeros(k), r) == Val(s, r)
  {
    if k > 0 {
      var t := s + Zeros(k - 1);
      assert s + Zeros(k) == t + [0];
      ValSnoc(t, 0, r);
      assert Val(t + [0], r) == Val(t, r);
      ValZerosSuffix(s, k - 1, r);
    } else {
      assert s + Zeros(k) == s;
    }
  }

  /** Dropping a zero top digit keeps the value. */
  lemma ValDropTopZero(s: seq<nat>, r: nat)
    requires |s| >= 1 && s[|s| - 1] == 0
    ensures Val(s[..|s| - 1], r) == Val(s, r)
  {
  }

  lemma {:induction false} ValComp(s: seq<nat>, r: nat)
    requires r >= 1 && IsDigits(s, r)
    ensures Val(Comp(s, r), r) + Val(s, r) + 1 == Pow(r, |s|)
  {
    if |s| > 0 {
      var n := |s| - 1;
      ValComp(s[..n], r);
      assert Comp(s, r)[..n] == Comp(s[..n], r);
      calc {
        Val(Comp(s, r), r) + Val(s, r) + 1;
        Val(Comp(s[..n], r), r) + (r - 1 - s[n]) * Pow(r, n) + Val(s[..n], r) + s[n] * Pow(r, n) + 1;
        Pow(r, n) + (r - 1 - s[n]) * Pow(r, n) + s[n] * Pow(r, n);
        r * Pow(r, n);
      }
    }
  }

  lemma LessAtArith(vs: nat, vt: nat, p: nat, a: nat, b: nat, r: nat, v: nat)
    requires vs < p && a < b
    ensures vs + p * (a + r * v) < vt + p * (b + r * v)
  {
    var w := r * v;
    MulLeft(a + w + 1, b + w, p);
  }

  /** Two digit strings of one length that agree above position k and differ at k
      compare as their digits at k do. */
  lemma ValFrom(s: seq<nat>, k: nat, r: nat)
    requires k < |s|
    ensures Val(s[k..], r) == s[k] + r * Val(s[k + 1..], r)
  {
    assert s[k..] == [s[k]] + s[k + 1..];
    ValCons(s[k], s[k + 1..], r);
  }

  /** The value seen from digit k: the part below, digit k, and the part above. */
  lemma ValAt(s: seq<nat>, k: nat, r: nat)
    requires k < |s|
    ensures Val(s, r) == Val(s[..k], r) + Pow(r, k) * (s[k] + r * Val(s[k + 1..], r))
  {
    ValSplit(s, k, r);
    ValFrom(s, k, r);
  }

  lemma ValLessAt(s: seq<nat>, t: seq<nat>, k: nat, r: nat)
    requires r >= 1 && |s| == |t| && k < |s| && IsDigits(s, r) && IsDigits(t, r)
    requires s[k] < t[k]
    requires forall j :: k < j < |s| ==> s[j] == t[j]
    ensures Val(s, r) < Val(t, r)
  {
    assert s[k + 1..] == t[k + 1..];
    SameTopLess(s, t, k, r);
  }

  lemma SameTopLess(s: seq<nat>, t: seq<nat>, k: nat, r: nat)
    requires r >= 1 && |s| == |t| && k < |s| && IsDigits(s, r)
    requires s[k] < t[k] && s[k + 1..] == t[k + 1..]
    ensures Val(s, r) < Val(t, r)
  {
    ValAt(s, k, r);
    ValAt(t, k, r);
    DigitsPrefix(s, k, r);
    ValBound(s[..k], r);
    LessAtArith(Val(s[..k], r), Val(t[..k], r), Pow(r, k), s[k], t[k], r, Val(s[k + 1..], r));
  }

  /** Converse of ValLessAt: a smaller value has a highest differing position
      where its digit is the smaller one. */
  lemma {:induction false} ValLessHasWitness(s: seq<nat>, t: seq<nat>, r: nat)
    requires r >= 1 && |s| == |t| && IsDigits(s, r) && IsDigits(t, r)
    requires Val(s, r) < Val(t, r)
    ensures exists k :: 0 <= k < |s| && s[k] < t[k] && forall j :: k < j < |s| ==> s[j] == t[j]
  {
    var n := |s| - 1;
    if s[n] < t[n] {
      assert s[n] < t[n];
    } else if s[n] > t[n] {
      ValLessAt(t, s, n, r);
    } else {
      ValLessHasWitness(s[..n], t[..n], r);
      var k :| 0 <= k < |s[..n]| && s[..n][k] < t[..n][k] && forall j :: k < j < |s[..n]| ==> s[..n][j] == t[..n][j];
      assert forall j :: k < j < |s| ==> s[j] == t[j] by {
        forall j | k < j < |s| ensures s[j] == t[j] {
          if j < n { assert s[..n][j] == s[j] && t[..n][j] == t[j]; }
        }
      }
    }
  }

  /** Two different digit strings of one length have a highest position where they differ. */
  lemma {:induction false} HighestDiff(s: seq<nat>, t: seq<nat>)
    requires |s| == |t| && s != t
    ensures exists k :: 0 <= k < |s| && s[k] != t[k] && forall j :: k < j < |s| ==> s[j] == t[j]
  {
    var n := |s| - 1;
    if s[n] != t[n] {
      assert s[n] != t[n];
    } else {
      assert s == s[..n] + [s[n]] && t == t[..n] + [t[n]];
      HighestDiff(s[..n], t[..n]);
      var k :| 0 <= k < |s[..n]| && s[..n][k] != t[..n][k] && forall j :: k < j < |s[..n]| ==> s[..n][j] == t[..n][j];
      assert s[k] != t[k];
      forall j | k < j < |s| ensures s[j] == t[j] {
        if j < n {
          assert s[..n][j] == s[j] && t[..n][j] == t[j];
        }
      }
    }
  }

  /** Digit strings of one length are determined by their value. */
  lemma ValInjective(s: seq<nat>, t: seq<nat>, r: nat)
    requires r >= 1 && |s| == |t| && IsDigits(s, r) && IsDigits(t, r)
    ensures Val(s, r) == Val(t, r) <==> s == t
  {
    if s != t {
      HighestDiff(s, t);
      var k :| 0 <= k < |s| && s[k] != t[k] && forall j :: k < j < |s| ==> s[j] == t[j];
      if s[k] < t[k] {
        ValLessAt(s, t, k, r);
      } else {
        ValLessAt(t, s, k, r);
      }
    }
  }

  lemma CarryArith(x: nat, r: nat, p: nat)
    requires r >= 1
    ensures (x % r) * p + (x / r) * (r * p) == x * p
  {
    var m, q := x % r, x / r;
    assert x == m + r * q;
    calc {
      x * p;
      (m + r * q) * p;
      m * p + (r * q) * p;
      { assert (r * q) * p == q * (r * p); }
      m * p + q * (r * p);
    }
  }

  lemma Distrib3(a: nat, b: nat, c: nat, p: nat)
    ensures (a + b + c) * p == a * p + b * p + c * p
  {
  }

  /** Writing x mod r as the next digit and passing x div r on as the carry
      keeps the total: the step every carry loop takes. */
  lemma DigitWrite(out: seq<nat>, x: nat, r: nat)
    requires r >= 1
    ensures Val(out + [x % r], r) + (x / r) * Pow(r, |out| + 1) == Val(out, r) + x * Pow(r, |out|)
  {
    var p := Pow(r, |out|);
    ValSnoc(out, x % r, r);
    assert Pow(r, |out| + 1) == r * p;
    CarryArith(x, r, p);
  }

  /** One step of a loop that adds the digit streams s and t with a carry. */
  lemma AddStep(out: seq<nat>, s: seq<nat>, t: seq<nat>, cy: nat, c0: nat, x: nat, r: nat)
    requires r >= 1 && |out| < |s| && |out| < |t| && x == s[|out|] + t[|out|] + cy
    requires Val(out, r) + cy * Pow(r, |out|) == Val(s[..|out|], r) + Val(t[..|out|], r) + c0
    ensures Val(out + [x % r], r) + (x / r) * Pow(r, |out| + 1) == Val(s[..|out| + 1], r) + Val(t[..|out| + 1], r) + c0
  {
    var k := |out|;
    DigitWrite(out, x, r);
    ValPrefixStep(s, k, r);
    ValPrefixStep(t, k, r);
    StepSum(Val(out, r), Val(s[..k], r), Val(t[..k], r), s[k], t[k], cy, c0, x, Pow(r, k));
  }

  lemma StepSum(vo: nat, vs: nat, vt: nat, a: nat, b: nat, cy: nat, c0: nat, x: nat, p: nat)
    requires vo + cy * p == vs + vt + c0 && x == a + b + cy
    ensures vo + x * p == (vs + a * p) + (vt + b * p) + c0
  {
    Distrib3(a, b, cy, p);
  }

  /** Replacing the digit at position k changes the value by the difference
      of the two digits, weighted by r^k. */
  lemma ValUpdate(s: seq<nat>, k: nat, d: nat, r: nat)
    requires k < |s|
    ensures Val(s[k := d], r) + s[k] * Pow(r, k) == Val(s, r) + d * Pow(r, k)
  {
    var t := s[k := d];
    assert t[..k] == s[..k] && t[k + 1..] == s[k + 1..];
    ValAt(s, k, r);
    ValAt(t, k, r);
    UpdateArith(Val(s[..k], r), Pow(r, k), s[k], d, r * Val(s[k + 1..], r));
  }

  lemma UpdateArith(v: nat, p: nat, a: nat, d: nat, w: nat)
    ensures v + p * (d + w) + a * p == v + p * (a + w) + d * p
  {
  }

  /** A prefix never denotes more than the whole string. */
  lemma ValPrefixLe(s: seq<nat>, k: nat, r: nat)
    requires k <= |s|
    ensures Val(s[..k], r) <= Val(s, r)
  {
    ValSplit(s, k, r);
  }

  /** A string whose value lies below r^(|s|-1) has a zero top digit. */
  lemma TopDigitZero(s: seq<nat>, r: nat)
    requires r >= 1 && |s| >= 1 && Val(s, r) < Pow(r, |s| - 1)
    ensures s[|s| - 1] == 0
  {
    if s[|s| - 1] >= 1 {
      ValTopBound(s, r);
    }
  }

  /** r^a * r^b stays within r^n when a + b <= n. */
  lemma PowProductLe(r: nat, a: nat, b: nat, n: nat)
    requires r >= 1 && a + b <= n
    ensures Pow(r, a) * Pow(r, b) <= Pow(r, n)
  {
    PowAdd(r, a, b);
    PowMono(r, a + b, n);
  }

  /** The first i + 1 digits of s lie below r^(i+1). */
  lemma ValPrefixBound(s: seq<nat>, i: nat, r: nat)
    requires r >= 1 && i < |s| && IsDigits(s, r)
    ensures Val(s[..i], r) + s[i] * Pow(r, i) < Pow(r, i + 1)
  {
    ValPrefixStep(s, i, r);
    assert IsDigits(s[..i + 1], r);
    ValBound(s[..i + 1], r);
  }

  lemma DigitsPrefix(s: seq<nat>, k: nat, r: nat)
    requires k <= |s| && IsDigits(s, r)
    ensures IsDigits(s[..k], r)
  {
  }
}
