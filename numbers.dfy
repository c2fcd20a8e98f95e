/** The ratpak NUMBER: a sign, the power of the radix carried by the least
    significant digit, and the digits themselves, least significant first.
    The digit count `cdigit` of the C++ struct is `|mant|`; the spare capacity
    of its digit vector only matters inside the routines that fill it, where it
    is a local array. */
module Numbers {
  import opened Digits

  datatype Number = Number(sign: int, exp: int, mant: seq<nat>)

  function Min(a: int, b: int): int { if a < b then a else b }
  function Max(a: int, b: int): int { if a < b then b else a }

  /** One past the position of the most significant digit (the MSD macro). */
  function MSD(x: Number): int { |x.mant| + x.exp }

  /** What every routine assumes of its operands: a sign of +1 or -1, at least
      one digit, and every digit below the radix. */
  predicate Valid(x: Number, r: nat)
  {
    (x.sign == 1 || x.sign == -1) && |x.mant| >= 1 && IsDigits(x.mant, r)
  }

  /** No zero top digit except in the single-digit zero. */
  predicate Normalized(x: Number)
  {
    |x.mant| == 1 || (|x.mant| > 1 && x.mant[|x.mant| - 1] != 0)
  }

  /** The test `!(cdigit > 1 || mant[0] != 0)` that addnum uses for zero. */
  predicate IsZeroForm(x: Number)
  {
    |x.mant| == 1 && x.mant[0] == 0
  }

  /** The test `!(cdigit > 1 || mant[0] != 1 || exp != 0)` that mulnum and divnum use for one. */
  predicate IsOneForm(x: Number)
  {
    |x.mant| == 1 && x.mant[0] == 1 && x.exp == 0
  }

  /** i32tonum(0, radix): the canonical zero. */
  function Zero(): Number { Number(1, 0, [0]) }

  /** The digit of x at absolute position p, 0 outside its digits. */
  function DigitAt(x: Number, p: int): nat
  {
    if x.exp <= p < MSD(x) then x.mant[p - x.exp] else 0
  }

  /** The n digits of x at positions lo, lo+1, ..., zero padded. */
  function Window(x: Number, lo: int, n: nat): seq<nat>
  {
    seq<nat>(n, j => DigitAt(x, lo + j))
  }

  /** |x| measured in units of r^L. */
  function Scaled(x: Number, L: int, r: nat): nat
    requires L <= x.exp
  {
    Val(x.mant, r) * Pow(r, x.exp - L)
  }

  /** x measured in units of r^L, with its sign. */
  function SignedScaled(x: Number, L: int, r: nat): int
    requires L <= x.exp
  {
    x.sign * Scaled(x, L, r)
  }

  /** Multiplying two signs gives a sign. */
  lemma SignProduct(s: int, t: int)
    requires (s == 1 || s == -1) && (t == 1 || t == -1)
    ensures s * t == 1 || s * t == -1
  {
  }

  /** The signed value is the magnitude or its negation. */
  lemma SignedScaledSign(x: Number, L: int, r: nat)
    requires L <= x.exp && (x.sign == 1 || x.sign == -1)
    ensures x.sign == 1 ==> SignedScaled(x, L, r) == Scaled(x, L, r)
    ensures x.sign == -1 ==> SignedScaled(x, L, r) + Scaled(x, L, r) == 0
  {
  }

  /** The window of n digits from L is x's digits with zeros below and above. */
  lemma WindowLayout(x: Number, L: int, n: nat)
    requires L <= x.exp && MSD(x) <= L + n
    ensures Window(x, L, n) == Zeros(x.exp - L) + (x.mant + Zeros(L + n - MSD(x)))
  {
    var lo: nat := x.exp - L;
    var hi: nat := L + n - MSD(x);
    var w := Window(x, L, n);
    var z := Zeros(lo) + (x.mant + Zeros(hi));
    assert |z| == n;
    forall j | 0 <= j < n ensures w[j] == z[j] {
      assert w[j] == DigitAt(x, L + j);
      if j < lo {
        assert z[j] == Zeros(lo)[j];
      } else if j < lo + |x.mant| {
        assert z[j] == x.mant[j - lo];
      } else {
        assert z[j] == Zeros(hi)[j - lo - |x.mant|];
      }
    }
  }

  lemma WindowVal(x: Number, L: int, n: nat, r: nat)
    requires L <= x.exp && MSD(x) <= L + n
    ensures Val(Window(x, L, n), r) == Scaled(x, L, r)
  {
    var lo: nat := x.exp - L;
    var hi: nat := L + n - MSD(x);
    WindowLayout(x, L, n);
    ValZerosPrefix(lo, x.mant + Zeros(hi), r);
    ValZerosSuffix(x.mant, hi, r);
    MulComm(Pow(r, lo), Val(x.mant, r));
  }

  lemma WindowDigits(x: Number, L: int, n: nat, r: nat)
    requires Valid(x, r)
    ensures IsDigits(Window(x, L, n), r)
  {
    assert x.mant[0] < r;
    forall j | 0 <= j < n ensures Window(x, L, n)[j] < r {
      assert Window(x, L, n)[j] == DigitAt(x, L + j);
      if x.exp <= L + j < MSD(x) {
        assert x.mant[L + j - x.exp] < r;
      }
    }
  }

  lemma ScaledRebase(x: Number, L: int, M: int, r: nat)
    requires L <= M <= x.exp
    ensures Scaled(x, L, r) == Scaled(x, M, r) * Pow(r, M - L)
  {
    PowAdd(r, x.exp - M, M - L);
    assert x.exp - L == (x.exp - M) + (M - L);
    MulAssoc(Val(x.mant, r), Pow(r, x.exp - M), Pow(r, M - L));
  }

  /** A digit string of n digits lies below r^n, and at or above r^(n-1) when
      its top digit is nonzero; scaled to L these bounds move with MSD(x) - L. */
  lemma ScaledBounds(x: Number, L: int, r: nat)
    requires r >= 2 && Valid(x, r) && L <= x.exp
    ensures Scaled(x, L, r) < Pow(r, MSD(x) - L)
    ensures x.mant[|x.mant| - 1] != 0 ==> Pow(r, MSD(x) - 1 - L) <= Scaled(x, L, r)
  {
    var n := |x.mant|;
    var k: nat := x.exp - L;
    var v, p := Val(x.mant, r), Pow(r, k);
    assert Scaled(x, L, r) == v * p;
    assert v * p < Pow(r, MSD(x) - L) by {
      ValBound(x.mant, r);
      PowAdd(r, n, k);
      MulStrict(v, Pow(r, n), p);
    }
    if x.mant[n - 1] != 0 {
      assert Pow(r, MSD(x) - 1 - L) <= v * p by {
        ValTopBound(x.mant, r);
        PowAdd(r, n - 1, k);
        MulLeft(Pow(r, n - 1), v, p);
      }
    }
  }

  /** A sign and a digit string without a zero top digit make a valid,
      normalized number whose magnitude at its own exponent is the digits' value. */
  lemma MakeNumber(sign: int, e: int, digits: seq<nat>, r: nat)
    requires (sign == 1 || sign == -1) && 1 <= |digits| && IsDigits(digits, r)
    requires |digits| == 1 || digits[|digits| - 1] != 0
    ensures Valid(Number(sign, e, digits), r) && Normalized(Number(sign, e, digits))
    ensures Scaled(Number(sign, e, digits), e, r) == Val(digits, r)
  {
  }

  /** In a normalized number only the single zero digit can denote zero. */
  lemma NormalizedTop(x: Number, r: nat)
    requires r >= 1 && Valid(x, r) && Normalized(x)
    ensures Val(x.mant, r) == 0 <==> IsZeroForm(x)
    ensures Val(x.mant, r) != 0 ==> x.mant[|x.mant| - 1] != 0
  {
    ValAllZero(x.mant, r);
    if |x.mant| == 1 {
      assert AllZero(x.mant) <==> x.mant[0] == 0;
    }
  }
}
