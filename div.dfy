/** divnum and _divnum: long division digit by digit. The divisor's multiples
    0, 1, ..., radix-1 are tabulated once; each step picks the largest
    multiple not above the running remainder, subtracts it, shifts the
    remainder up one position and writes the digit, most significant first,
    from the top of a (thismax + 1)-digit buffer downwards. Values are
    compared in units of r^L, where L is the lower of the divisor's exponent
    and the exponent the remainder starts with. */
module Div {
  import opened Digits
  import opened Numbers
  import opened Compare
  import opened Add

  /** Entry of the multiple table that stands for k times the divisor t:
      i32tonum(0) for k = 0, otherwise t's digits times k at t's exponent and sign. */
  ghost predicate IsMultiple(x: Number, k: nat, t: Number, r: nat)
  {
    Valid(x, r) && Normalized(x) &&
    if k == 0 then x == Zero()
    else x.exp == t.exp && x.sign == t.sign && Val(x.mant, r) == k * Val(t.mant, r)
  }

  /** The table _divnum builds: radix entries, entry k standing for
      radix-1-k times the divisor. */
  ghost predicate MultipleTable(table: seq<Number>, t: Number, r: nat)
  {
    |table| == r && forall k :: 0 <= k < r ==> IsMultiple(table[k], r - 1 - k, t, r)
  }

  /** The number of quotient digits _divnum produces at most. */
  function DigitLimit(a: Number, b: Number, precision: int): int
  {
    Max(Max(precision + 2, |a.mant|), |b.mant|)
  }

  /** q is the quotient a / b truncated at q's last digit: with E the
      exponent of q's last digit seen in b's units and M the lower of a's
      exponent and E, q * b <= a < (q + 1) * b, all measured in units of r^M. */
  ghost predicate QuotientBounds(q: Number, a: Number, b: Number, r: nat)
  {
    var E := q.exp + b.exp;
    var M := Min(a.exp, E);
    Val(q.mant, r) * Val(b.mant, r) * Pow(r, E - M) <= Val(a.mant, r) * Pow(r, a.exp - M) &&
    Val(a.mant, r) * Pow(r, a.exp - M) < (Val(q.mant, r) + 1) * Val(b.mant, r) * Pow(r, E - M)
  }

  /** q * b == a exactly, in the same units. */
  ghost predicate ExactQuotient(q: Number, a: Number, b: Number, r: nat)
  {
    var E := q.exp + b.exp;
    var M := Min(a.exp, E);
    Val(q.mant, r) * Val(b.mant, r) * Pow(r, E - M) == Val(a.mant, r) * Pow(r, a.exp - M)
  }

  /** Adding t to entry k of the table gives entry k + 1. The requires are
      what addnum promises about c = x + t. */
  lemma NextEntry(x: Number, c: Number, k: nat, t: Number, r: nat)
    requires r >= 2 && IsMultiple(x, k, t, r)
    requires Valid(t, r) && Normalized(t) && Val(t.mant, r) != 0 && Valid(c, r)
    requires IsZeroForm(x) ==> c == t
    requires !IsZeroForm(x) ==> c.exp == Min(x.exp, t.exp) && Normalized(c)
    requires Min(x.exp, t.exp) <= c.exp
    requires SignedScaled(c, Min(x.exp, t.exp), r) == SignedScaled(x, Min(x.exp, t.exp), r) + SignedScaled(t, Min(x.exp, t.exp), r)
    requires x.sign == t.sign ==> c.sign == x.sign
    ensures IsMultiple(c, k + 1, t, r)
  {
    NormalizedTop(x, r);
    if k >= 1 {
      var T := Val(t.mant, r);
      assert Scaled(c, t.exp, r) == Val(c.mant, r);
      assert Scaled(x, t.exp, r) == k * T;
      assert Scaled(t, t.exp, r) == T;
      assert c.sign * Val(c.mant, r) == c.sign * (k * T) + c.sign * T;
    }
  }

  lemma TableExtend(table: seq<Number>, c: Number, i: nat, t: Number, r: nat)
    requires |table| == i
    requires forall k :: 0 <= k < i ==> IsMultiple(table[k], i - 1 - k, t, r)
    requires IsMultiple(c, i, t, r)
    ensures forall k :: 0 <= k < i + 1 ==> IsMultiple(([c] + table)[k], i - k, t, r)
  {
    forall k | 0 <= k < i + 1 ensures IsMultiple(([c] + table)[k], i - k, t, r) {
      if k > 0 {
        assert ([c] + table)[k] == table[k - 1];
      }
    }
  }

  /** The table loop of _divnum: entry radix-1-k holds k times the divisor,
      the last entry is i32tonum(0). */
  method BuildTable(tmp: Number, radix: nat) returns (table: seq<Number>)
    requires radix >= 2 && Valid(tmp, radix) && Normalized(tmp) && Val(tmp.mant, radix) != 0
    ensures MultipleTable(table, tmp, radix)
  {
    table := [Zero()];
    var i := 1;
    while i < radix
      invariant 1 <= i <= radix && |table| == i
      invariant forall k :: 0 <= k < i ==> IsMultiple(table[k], i - 1 - k, tmp, radix)
    {
      var newValue := AddNum(table[0], tmp, radix);
      NextEntry(table[0], newValue, i - 1, tmp, radix);
      TableExtend(table, newValue, i, tmp, radix);
      table := [newValue] + table;
      i := i + 1;
    }
  }

  /** lessnum on two nonzero normalized numbers compares magnitudes at any common scale. */
  lemma LessAtScale(x: Number, y: Number, L: int, r: nat)
    requires r >= 2 && Valid(x, r) && Valid(y, r) && Normalized(x) && Normalized(y)
    requires !IsZeroForm(x) && !IsZeroForm(y) && L <= x.exp && L <= y.exp
    ensures DigitsLess(x, y) <==> Scaled(x, L, r) < Scaled(y, L, r)
  {
    var M := Min(x.exp, y.exp);
    LessNumMeansLessValue(x, y, r);
    ScaledRebase(x, L, M, r);
    ScaledRebase(y, L, M, r);
    var p := Pow(r, M - L);
    if Scaled(x, M, r) < Scaled(y, M, r) {
      MulStrict(Scaled(x, M, r), Scaled(y, M, r), p);
    } else {
      MulLeft(Scaled(y, M, r), Scaled(x, M, r), p);
    }
  }

  lemma MultipleScaled(x: Number, k: nat, t: Number, L: int, r: nat)
    requires k >= 1 && IsMultiple(x, k, t, r) && L <= t.exp
    ensures Scaled(x, L, r) == k * Scaled(t, L, r)
  {
    MulAssoc(k, Val(t.mant, r), Pow(r, t.exp - L));
  }

  /** The search through the table: `!lessnum(rem, num) || !--digit`. The
      digit found is the largest whose multiple of the divisor does not
      exceed the remainder; for a nonzero digit, multiple is that entry. */
  method ChooseDigit(rem: Number, table: seq<Number>, tmp: Number, ghost L: int, radix: nat)
      returns (digit: nat, multiple: Number)
    requires radix >= 2
    requires Valid(rem, radix) && Normalized(rem) && !IsZeroForm(rem) && L <= rem.exp
    requires Valid(tmp, radix) && Normalized(tmp) && Val(tmp.mant, radix) != 0 && L <= tmp.exp
    requires MultipleTable(table, tmp, radix)
    requires Scaled(rem, L, radix) < radix * Scaled(tmp, L, radix)
    ensures digit < radix
    ensures digit * Scaled(tmp, L, radix) <= Scaled(rem, L, radix) < (digit + 1) * Scaled(tmp, L, radix)
    ensures digit != 0 ==> multiple == table[radix - 1 - digit]
  {
    ghost var R, Bs := Scaled(rem, L, radix), Scaled(tmp, L, radix);
    digit := radix - 1;
    multiple := Zero();
    var k := 0;
    while k < |table|
      invariant 0 <= k <= radix - 2 && digit == radix - 1 - k
      invariant R < (digit + 1) * Bs
      decreases |table| - k
    {
      var num := table[k];
      EntryTest(rem, num, digit, tmp, L, radix);
      var lt := LessNum(rem, num);
      if !lt {
        multiple := num;
        break;
      }
      digit := digit - 1;
      assert R < (digit + 1) * Bs;
      if digit == 0 {
        multiple := num;
        break;
      }
      k := k + 1;
    }
  }

  /** lessnum of the remainder against the table entry for d says whether
      the remainder is below d times the divisor. */
  lemma EntryTest(rem: Number, num: Number, d: nat, tmp: Number, L: int, r: nat)
    requires r >= 2 && d >= 1 && IsMultiple(num, d, tmp, r)
    requires Valid(rem, r) && Normalized(rem) && !IsZeroForm(rem) && L <= rem.exp
    requires Valid(tmp, r) && Normalized(tmp) && Val(tmp.mant, r) != 0 && L <= tmp.exp
    ensures DigitsLess(rem, num) <==> Scaled(rem, L, r) < d * Scaled(tmp, L, r)
  {
    NormalizedTop(num, r);
    MultipleScaled(num, d, tmp, L, r);
    LessAtScale(rem, num, L, r);
  }

  /** The remainder _divnum starts from (the dividend's digits placed so that
      its MSD is the divisor's) is below radix times the divisor. */
  lemma InitialRemainder(a: Number, tmp: Number, L: int, r: nat)
    requires r >= 2 && Valid(a, r) && Valid(tmp, r) && Normalized(tmp) && Val(tmp.mant, r) != 0
    requires L == Min(MSD(tmp) - |a.mant|, tmp.exp)
    ensures Scaled(a.(exp := MSD(tmp) - |a.mant|), L, r) < r * Scaled(tmp, L, r)
  {
    var rem := a.(exp := MSD(tmp) - |a.mant|);
    ScaledBounds(rem, L, r);
    NormalizedTop(tmp, r);
    ScaledBounds(tmp, L, r);
    var m: nat := MSD(tmp) - 1 - L;
    assert Pow(r, MSD(tmp) - L) == r * Pow(r, m) by {
      assert MSD(tmp) - L == m + 1;
    }
    MulLeft(Pow(r, m), Scaled(tmp, L, r), r);
  }

  lemma SignArith(cs: int, s: int, X: nat, A: nat, U: nat, p: nat)
    requires (cs == 1 || cs == -1) && (s == 1 || s == -1) && p >= 1
    requires cs * X == s * A - s * U && U * p <= A * p
    ensures X * p + U * p == A * p && (X > 0 ==> cs == s)
  {
    if U > A {
      MulStrict(A, U, p);
    }
    if cs == s {
      assert X == A - U;
    } else {
      assert X == U - A;
    }
  }

  /** rem + negative, negative being the table entry for d with its sign
      flipped, takes d times the divisor off the remainder and leaves the
      dividend's sign on whatever is left. The requires about c are what
      addnum promises when both operands are nonzero. */
  lemma SubtractMultiple(rem: Number, negative: Number, c: Number, d: nat, tmp: Number, L: int, r: nat)
    requires r >= 2 && Valid(rem, r) && Valid(tmp, r) && Valid(c, r)
    requires rem.sign == tmp.sign && L <= rem.exp && L <= tmp.exp
    requires negative.exp == tmp.exp && negative.sign == -tmp.sign
    requires Val(negative.mant, r) == d * Val(tmp.mant, r)
    requires c.exp == Min(rem.exp, negative.exp)
    requires SignedScaled(c, c.exp, r) == SignedScaled(rem, c.exp, r) + SignedScaled(negative, c.exp, r)
    requires d * Scaled(tmp, L, r) <= Scaled(rem, L, r)
    ensures L <= c.exp
    ensures Scaled(c, L, r) + d * Scaled(tmp, L, r) == Scaled(rem, L, r)
    ensures Val(c.mant, r) != 0 ==> c.sign == tmp.sign
  {
    var M := c.exp;
    var p := Pow(r, M - L);
    var X, A, T := Scaled(c, M, r), Scaled(rem, M, r), Scaled(tmp, M, r);
    var q := Pow(r, tmp.exp - M);
    assert Scaled(negative, M, r) == d * T by {
      MulAssoc(d, Val(tmp.mant, r), q);
    }
    assert X == Val(c.mant, r);
    ScaledRebase(c, L, M, r);
    ScaledRebase(rem, L, M, r);
    ScaledRebase(tmp, L, M, r);
    MulAssoc(d, T, p);
    SignArith(c.sign, tmp.sign, X, A, d * T, p);
  }

  /** Moving the remainder up one position multiplies it by the radix. */
  lemma ShiftUp(x: Number, L: int, r: nat)
    requires L <= x.exp
    ensures Scaled(x.(exp := x.exp + 1), L, r) == r * Scaled(x, L, r)
  {
    assert Pow(r, x.exp + 1 - L) == r * Pow(r, x.exp - L);
  }

  /** Subtracting d times the divisor and shifting up keeps the remainder
      below radix times the divisor. */
  lemma StepArith(R: nat, R1: nat, Bs: nat, d: nat, r: nat)
    requires r >= 1 && R1 + d * Bs == R && R < (d + 1) * Bs
    ensures r * R1 + r * (d * Bs) == r * R
    ensures r * R1 < r * Bs
  {
    assert (d + 1) * Bs == d * Bs + Bs;
    MulStrict(R1, Bs, r);
  }

  /** One pass of the digit loop apart from storing the digit: choose the
      digit, subtract that multiple of the divisor, move the remainder up
      one position. Measured in units of r^L the new remainder is radix
      times (old remainder - digit * divisor), and stays below radix times
      the divisor. */
  method DivStep(rem: Number, table: seq<Number>, tmp: Number, ghost L: int, radix: nat,
                 ghost Q: nat, ghost P: nat, ghost R0: nat)
      returns (next: Number, digit: nat)
    requires radix >= 2
    requires Valid(rem, radix) && Normalized(rem) && !IsZeroForm(rem) && L <= rem.exp
    requires Valid(tmp, radix) && Normalized(tmp) && Val(tmp.mant, radix) != 0 && L <= tmp.exp
    requires rem.sign == tmp.sign
    requires MultipleTable(table, tmp, radix)
    requires DivisionState(Scaled(rem, L, radix), Q, P, Scaled(tmp, L, radix), R0, radix)
    ensures Valid(next, radix) && Normalized(next) && L <= next.exp && digit < radix
    ensures Val(next.mant, radix) != 0 ==> next.sign == tmp.sign
    ensures digit == 0 ==> Val(next.mant, radix) != 0
    ensures DivisionState(Scaled(next, L, radix), digit + radix * Q, radix * P, Scaled(tmp, L, radix), R0, radix)
  {
    NormalizedTop(rem, radix);
    var multiple;
    digit, multiple := ChooseDigit(rem, table, tmp, L, radix);
    next := rem;
    if digit != 0 {
      assert IsMultiple(multiple, digit, tmp, radix);
      var negative := multiple.(sign := -multiple.sign);
      assert !IsZeroForm(negative) by { NormalizedTop(multiple, radix); }
      next := AddNum(rem, negative, radix);
      SubtractMultiple(rem, negative, next, digit, tmp, L, radix);
    }
    StepArith(Scaled(rem, L, radix), Scaled(next, L, radix), Scaled(tmp, L, radix), digit, radix);
    ShiftUp(next, L, radix);
    next := next.(exp := next.exp + 1);
    LoopArith(Scaled(rem, L, radix), Scaled(next, L, radix), Q, digit, Scaled(tmp, L, radix), P, R0, radix);
  }

  /** The long-division invariant in units of r^L: remainder R plus radix
      times quotient Q times divisor Bs is the initial remainder R0 shifted up
      by the P = radix^n digits produced, and R is below radix times Bs. */
  ghost predicate DivisionState(R: nat, Q: nat, P: nat, Bs: nat, R0: nat, r: nat)
  {
    R + r * Q * Bs == P * R0 && R < r * Bs
  }

  /** Appending digit d below the quotient so far keeps remainder + radix *
      quotient * divisor equal to the dividend shifted up by the digits produced. */
  lemma LoopArith(R: nat, R2: nat, Q: nat, d: nat, Bs: nat, P: nat, R0: nat, r: nat)
    requires DivisionState(R, Q, P, Bs, R0, r) && R2 + r * (d * Bs) == r * R && R2 < r * Bs
    ensures DivisionState(R2, d + r * Q, r * P, Bs, R0, r)
  {
    assert r * (d + r * Q) * Bs == r * (d * Bs) + r * (r * Q * Bs);
    assert r * R + r * (r * Q * Bs) == r * (P * R0);
  }

  /** The digit loop of _divnum, `while (cdigits++ < thismax && !zernum(rem))`,
      with the table built first. The digits land in buf from index thismax
      downwards, so read upwards from thismax + 1 - n they are the quotient,
      least significant first; R is the remainder left over. */
  method DivDigits(a: Number, tmp: Number, thismax: nat, radix: nat)
      returns (buf: array<nat>, n: nat, ghost R: nat)
    requires radix >= 2 && Valid(a, radix) && Normalized(a)
    requires Valid(tmp, radix) && Normalized(tmp) && Val(tmp.mant, radix) != 0
    requires tmp.sign == a.sign && thismax >= 1
    ensures fresh(buf) && buf.Length == thismax + 1 && n <= thismax
    ensures IsDigits(buf[thismax + 1 - n..], radix) && AllZero(buf[..thismax + 1 - n])
    ensures var L := Min(MSD(tmp) - |a.mant|, tmp.exp);
      DivisionState(R, Val(buf[thismax + 1 - n..], radix), Pow(radix, n), Scaled(tmp, L, radix),
                    Scaled(a.(exp := MSD(tmp) - |a.mant|), L, radix), radix)
    ensures R == 0 || n == thismax
    ensures 0 < n && R == 0 ==> buf[thismax + 1 - n] != 0
    ensures n == 0 <==> AllZero(a.mant)
  {
    var rem := a.(exp := MSD(tmp) - |a.mant|);
    ghost var L := Min(rem.exp, tmp.exp);
    InitialRemainder(a, tmp, L, radix);
    var table := BuildTable(tmp, radix);
    buf := new nat[thismax + 1](_ => 0);
    assert buf[..] == Zeros(thismax + 1);
    n, R := DivLoop(rem, table, tmp, buf, L, radix);
    assert buf[thismax + 1 - n..] == buf[buf.Length - n..];
    assert buf[..thismax + 1 - n] == Zeros(thismax + 1 - n) by {
      assert buf[..] == Zeros(buf.Length - n) + buf[buf.Length - n..];
    }
  }

  /** The loop itself on the buffer that createnum zero-filled: the digits
      are stored at ptrc = thismax, thismax - 1, ... */
  method DivLoop(rem0: Number, table: seq<Number>, tmp: Number, buf: array<nat>, ghost L: int, radix: nat)
      returns (n: nat, ghost R: nat)
    requires radix >= 2 && MultipleTable(table, tmp, radix)
    requires Valid(rem0, radix) && Normalized(rem0) && L <= rem0.exp
    requires Val(rem0.mant, radix) != 0 ==> rem0.sign == tmp.sign
    requires Valid(tmp, radix) && Normalized(tmp) && Val(tmp.mant, radix) != 0 && L <= tmp.exp
    requires buf.Length >= 2 && buf[..] == Zeros(buf.Length)
    requires Scaled(rem0, L, radix) < radix * Scaled(tmp, L, radix)
    modifies buf
    ensures n < buf.Length && IsDigits(buf[buf.Length - n..], radix)
    ensures buf[..] == Zeros(buf.Length - n) + buf[buf.Length - n..]
    ensures DivisionState(R, Val(buf[buf.Length - n..], radix), Pow(radix, n), Scaled(tmp, L, radix),
                          Scaled(rem0, L, radix), radix)
    ensures R == 0 || n == buf.Length - 1
    ensures 0 < n && R == 0 ==> buf[buf.Length - n] != 0
    ensures n == 0 <==> AllZero(rem0.mant)
  {
    var thismax := buf.Length - 1;
    ghost var R0: nat, Bs: nat := Scaled(rem0, L, radix), Scaled(tmp, L, radix);
    var rem := rem0;
    var ptrc: int := thismax;
    n := 0;
    ghost var digits: seq<nat> := [];
    DivisionStart(R0, Bs, radix);
    var z := ZerNum(rem);
    while n < thismax && !z
      invariant n <= thismax && ptrc == thismax - n
      invariant z == AllZero(rem.mant) && buf[..] == Zeros(thismax + 1 - n) + digits
      invariant DivProgress(rem, tmp, digits, n, L, Bs, R0, radix)
      invariant n == 0 ==> rem.mant == rem0.mant
      invariant n > 0 ==> !AllZero(rem0.mant)
    {
      var digit;
      rem, digit := DivIteration(rem, table, tmp, buf, ptrc, L, radix, digits, n, Bs, R0);
      ptrc := ptrc - 1;
      digits := [digit] + digits;
      n := n + 1;
      z := ZerNum(rem);
    }
    R := Scaled(rem, L, radix);
    ValAllZero(rem.mant, radix);
    assert buf[buf.Length - n..] == digits;
    ZeroFactor(Val(rem.mant, radix), Pow(radix, rem.exp - L));
  }

  /** A product with a positive factor vanishes only with the other factor. */
  lemma ZeroFactor(x: nat, p: nat)
    requires p >= 1
    ensures x * p == 0 ==> x == 0
  {
    if x > 0 {
      MulStrict(0, x, p);
    }
  }

  /** What the _divnum loop keeps true after n digits: the remainder is a valid
      normalized number with the divisor's sign (or zero), the digits produced
      are radix digits, and remainder and quotient account for the dividend. */
  ghost predicate DivProgress(rem: Number, tmp: Number, digits: seq<nat>, n: nat, L: int, Bs: nat, R0: nat, radix: nat)
  {
    Valid(rem, radix) && Normalized(rem) && L <= rem.exp
    && (Val(rem.mant, radix) != 0 ==> rem.sign == tmp.sign)
    && IsDigits(digits, radix)
    && DivisionState(Scaled(rem, L, radix), Val(digits, radix), Pow(radix, n), Bs, R0, radix)
    && (|digits| > 0 && AllZero(rem.mant) ==> digits[0] != 0)
  }

  /** One pass of the _divnum loop: choose and subtract the next quotient digit,
      store it just below the digits already produced, and shift the remainder up. */
  method DivIteration(rem: Number, table: seq<Number>, tmp: Number, buf: array<nat>, ptrc: nat,
                      ghost L: int, radix: nat, ghost digits: seq<nat>, ghost n: nat, ghost Bs: nat, ghost R0: nat)
      returns (next: Number, digit: nat)
    requires radix >= 2 && MultipleTable(table, tmp, radix)
    requires Valid(tmp, radix) && Normalized(tmp) && Val(tmp.mant, radix) != 0 && L <= tmp.exp
    requires Bs == Scaled(tmp, L, radix)
    requires DivProgress(rem, tmp, digits, n, L, Bs, R0, radix) && !AllZero(rem.mant)
    requires ptrc < buf.Length && buf[..] == Zeros(ptrc + 1) + digits
    modifies buf
    ensures buf[..] == Zeros(ptrc) + ([digit] + digits)
    ensures DivProgress(next, tmp, [digit] + digits, n + 1, L, Bs, R0, radix)
  {
    ValAllZero(rem.mant, radix);
    next, digit := DivStep(rem, table, tmp, L, radix, Val(digits, radix), Pow(radix, n), R0);
    ValAllZero(next.mant, radix);
    StoreDigit(buf, ptrc, digit, digits);
    NextState(Scaled(next, L, radix), digit, digits, n, Bs, R0, radix);
  }

  lemma DivisionStart(R0: nat, Bs: nat, r: nat)
    requires R0 < r * Bs
    ensures DivisionState(R0, Val([], r), Pow(r, 0), Bs, R0, r)
  {
  }

  /** Writing digit d just below the digits already produced. */
  lemma ZerosWrite(m: nat, digits: seq<nat>, d: nat)
    requires m >= 1
    ensures (Zeros(m) + digits)[m - 1 := d] == Zeros(m - 1) + ([d] + digits)
  {
  }

  /** *ptrc-- = digit: the new digit goes just below those already stored. */
  method StoreDigit(buf: array<nat>, ptrc: nat, digit: nat, ghost digits: seq<nat>)
    requires ptrc < buf.Length && buf[..] == Zeros(ptrc + 1) + digits
    modifies buf
    ensures buf[..] == Zeros(ptrc) + ([digit] + digits)
  {
    buf[ptrc] := digit;
    ZerosWrite(ptrc + 1, digits, digit);
  }

  /** The digit just produced, put below the earlier ones, is the quotient
      the division state speaks of one position further on. */
  lemma NextState(R: nat, d: nat, digits: seq<nat>, n: nat, Bs: nat, R0: nat, r: nat)
    requires DivisionState(R, d + r * Val(digits, r), r * Pow(r, n), Bs, R0, r)
    ensures DivisionState(R, Val([d] + digits, r), Pow(r, n + 1), Bs, R0, r)
  {
    ValCons(d, digits, r);
  }
  lemma QuotientArith(R: nat, Q: nat, B: nat, pD: nat, pW: nat, A: nat, pG: nat)
    requires pW >= 1 && R + Q * B * pD * pW == A * pG * pW && R < B * pD * pW
    ensures Q * B * pD <= A * pG < (Q + 1) * B * pD
    ensures R == 0 <==> Q * B * pD == A * pG
  {
    var Y: nat := A * pG;
    var X: nat := Q * B * pD;
    if X > Y {
      MulStrict(Y, X, pW);
    }
    assert (X + B * pD) * pW == X * pW + B * pD * pW;
    if Y >= X + B * pD {
      MulLeft(X + B * pD, Y, pW);
    }
    assert (Q + 1) * B * pD == X + B * pD;
    if R == 0 && X < Y {
      MulStrict(X, Y, pW);
    }
  }

  /** The division state with the divisor and the dividend written as digit
      values times powers of the radix, regrouped around the quotient's own
      exponent D and the W extra positions the loop ran below it. */
  lemma RegroupState(R: nat, Q: nat, B: nat, A: nat, pB: nat, pE: nat, pD: nat, pW: nat, pG: nat, P: nat, Bs: nat, R0: nat, r: nat)
    requires DivisionState(R, Q, P, Bs, R0, r) && Bs == B * pB && R0 == A * pE
    requires r * pB == pD * pW && P * pE == pG * pW
    ensures R + Q * B * pD * pW == A * pG * pW && R < B * pD * pW
  {
    assert r * Q * (B * pB) == Q * B * (r * pB);
    assert r * (B * pB) == B * (r * pB);
    assert P * (A * pE) == A * (P * pE);
  }

  /** The loop's invariant, rewritten in the quotient's own position: the
      digits produced, placed at exponent MSD(a) - MSD(b) + 1 - n, are a / b
      truncated, and exactly a / b once the remainder has vanished. */
  lemma QuotientFromLoop(a: Number, b: Number, q: Number, n: nat, R: nat, r: nat)
    requires r >= 2 && n >= 1
    requires var L := Min(MSD(b) - |a.mant|, b.exp);
      DivisionState(R, Val(q.mant, r), Pow(r, n), Scaled(b, L, r), Scaled(a.(exp := MSD(b) - |a.mant|), L, r), r)
    requires q.exp == MSD(a) - MSD(b) + 1 - n
    ensures QuotientBounds(q, a, b, r)
    ensures R == 0 <==> ExactQuotient(q, a, b, r)
  {
    var e0 := MSD(b) - |a.mant|;
    var L := Min(e0, b.exp);
    var E := q.exp + b.exp;
    var M := Min(a.exp, E);
    var D: nat := E - M;
    var G: nat := a.exp - M;
    var W: nat := 1 + b.exp - L - D;
    var pB, pE := Pow(r, b.exp - L), Pow(r, e0 - L);
    var pD, pW, pG := Pow(r, D), Pow(r, W), Pow(r, G);
    assert r * pB == pD * pW by {
      assert r * pB == Pow(r, b.exp - L + 1);
      PowAdd(r, D, W);
    }
    assert Pow(r, n) * pE == pG * pW by {
      PowAdd(r, n, e0 - L);
      PowAdd(r, G, W);
      assert n + (e0 - L) == G + W;
    }
    var Q, B, A := Val(q.mant, r), Val(b.mant, r), Val(a.mant, r);
    RegroupState(R, Q, B, A, pB, pE, pD, pW, pG, Pow(r, n), Scaled(b, L, r), Scaled(a.(exp := e0), L, r), r);
    QuotientArith(R, Q, B, pD, pW, A, pG);
    BoundsFromArith(q, a, b, r, Q, B, A, pD, pG);
  }

  /** QuotientBounds and ExactQuotient from the same facts about named values. */
  lemma BoundsFromArith(q: Number, a: Number, b: Number, r: nat, Q: nat, B: nat, A: nat, pD: nat, pG: nat)
    requires Q == Val(q.mant, r) && B == Val(b.mant, r) && A == Val(a.mant, r)
    requires pD == Pow(r, q.exp + b.exp - Min(a.exp, q.exp + b.exp))
    requires pG == Pow(r, a.exp - Min(a.exp, q.exp + b.exp))
    requires Q * B * pD <= A * pG < (Q + 1) * B * pD
    ensures QuotientBounds(q, a, b, r)
    ensures Q * B * pD == A * pG <==> ExactQuotient(q, a, b, r)
  {
  }

  /** std::copy of the n digits at ptrc down to the start of the buffer. */
  method CopyDown(buf: array<nat>, src: nat, n: nat)
    requires src + n <= buf.Length
    modifies buf
    ensures buf[..n] == old(buf[src..src + n])
    ensures buf[n..] == old(buf[n..])
  {
    ghost var d := buf[src..src + n];
    var k := 0;
    while k < n
      invariant k <= n
      invariant buf[..k] == d[..k]
      invariant buf[src + k..src + n] == d[k..]
      invariant buf[n..] == old(buf[n..])
    {
      assert buf[src + k] == d[k];
      buf[k] := buf[src + k];
      assert buf[..k + 1] == d[..k] + [d[k]];
      k := k + 1;
    }
  }

  /** The end of _divnum: copy the n digits stored below index
      buf.Length down to the start of the buffer, then keep one zero digit
      if there are none, or strip the zeros at the top. */
  method PackDigits(buf: array<nat>, n: nat, radix: nat) returns (mant: seq<nat>)
    requires radix >= 2 && n < buf.Length && IsDigits(buf[buf.Length - n..], radix) && AllZero(buf[..buf.Length - n])
    modifies buf
    ensures 1 <= |mant| && IsDigits(mant, radix) && (|mant| == 1 || mant[|mant| - 1] != 0)
    ensures n == 0 ==> mant == [0]
    ensures n > 0 ==> |mant| <= n && Val(mant, radix) == Val(old(buf[buf.Length - n..]), radix)
    ensures n > 0 ==> mant[0] == old(buf[buf.Length - n])
  {
    var ptrc := buf.Length - n;
    ghost var digits := buf[ptrc..ptrc + n];
    assert digits == buf[buf.Length - n..];
    assert n > 0 ==> digits[0] == buf[buf.Length - n];
    if ptrc != 0 {
      CopyDown(buf, ptrc, n);
    }
    if n == 0 {
      assert buf[0] == 0 by {
        assert buf[0] in buf[..buf.Length - n];
      }
      mant := buf[..1];
      assert mant == [0];
    } else {
      assert buf[..n] == digits;
      mant := Trimmed(buf, n, radix);
      assert mant[0] == buf[0] == digits[0];
    }
  }

  /** The digits _divnum produces for a / tmp, packed down and stripped of
      zero top digits: the n digits computed, read as a number, stand in the
      division state, and no digit at all means a zero dividend. */
  method QuotientDigits(a: Number, tmp: Number, thismax: nat, radix: nat)
      returns (mant: seq<nat>, n: nat, ghost R: nat)
    requires radix >= 2 && Valid(a, radix) && Normalized(a)
    requires Valid(tmp, radix) && Normalized(tmp) && Val(tmp.mant, radix) != 0
    requires tmp.sign == a.sign && thismax >= 1
    ensures 1 <= |mant| && IsDigits(mant, radix) && (|mant| == 1 || mant[|mant| - 1] != 0)
    ensures n <= thismax && (n == 0 <==> AllZero(a.mant))
    ensures n == 0 ==> mant == [0]
    ensures n > 0 ==> |mant| <= n
    ensures var L := Min(MSD(tmp) - |a.mant|, tmp.exp);
      n > 0 ==> DivisionState(R, Val(mant, radix), Pow(radix, n), Scaled(tmp, L, radix),
                              Scaled(a.(exp := MSD(tmp) - |a.mant|), L, radix), radix)
    ensures R == 0 || n == thismax
    ensures n > 0 && R == 0 ==> mant[0] != 0
  {
    var buf;
    buf, n, R := DivDigits(a, tmp, thismax, radix);
    mant := PackDigits(buf, n, radix);
  }

  /** _divnum: the quotient a / b to at most DigitLimit digits, truncated,
      with sign a.sign * b.sign. A zero dividend gives the single digit 0 at
      exponent 0. Otherwise the quotient is exact unless the digit budget
      ran out, in which case its last digit sits at
      MSD(a) - MSD(b) + 1 - DigitLimit. The loop stops at the first zero
      remainder, so an exact quotient ends in a nonzero digit, which fixes
      its exponent. */
  method DivNumCore(a: Number, b: Number, radix: nat, precision: int) returns (c: Number)
    requires radix >= 2 && Valid(a, radix) && Normalized(a)
    requires Valid(b, radix) && Normalized(b) && Val(b.mant, radix) != 0
    ensures Valid(c, radix) && Normalized(c) && c.sign == a.sign * b.sign
    ensures |c.mant| <= DigitLimit(a, b, precision)
    ensures AllZero(a.mant) ==> c.mant == [0] && c.exp == 0
    ensures QuotientBounds(c, a, b, radix)
    ensures !AllZero(a.mant) ==> MSD(a) - MSD(b) + 1 - DigitLimit(a, b, precision) <= c.exp <= MSD(a) - MSD(b)
    ensures !AllZero(a.mant) ==>
      ExactQuotient(c, a, b, radix) || c.exp == MSD(a) - MSD(b) + 1 - DigitLimit(a, b, precision)
    ensures !AllZero(a.mant) && ExactQuotient(c, a, b, radix) ==> c.mant[0] != 0
  {
    var thismax: int := precision + 2;
    if thismax < |a.mant| {
      thismax := |a.mant|;
    }
    if thismax < |b.mant| {
      thismax := |b.mant|;
    }
    assert thismax == DigitLimit(a, b, precision);
    var cexp := MSD(a) - MSD(b) + 1;
    var sign := a.sign * b.sign;
    SignProduct(a.sign, b.sign);
    var tmp := b.(sign := a.sign);
    var mant, cdigits, R := QuotientDigits(a, tmp, thismax, radix);
    if cdigits == 0 {
      c := Number(sign, 0, mant);
      ValAllZero(a.mant, radix);
      ZeroQuotient(c, a, b, radix);
    } else {
      c := Number(sign, cexp - cdigits, mant);
      ghost var L := Min(MSD(b) - |a.mant|, b.exp);
      assert Scaled(tmp, L, radix) == Scaled(b, L, radix);
      QuotientFromLoop(a, b, c, cdigits, R, radix);
    }
  }

  /** A zero dividend: the quotient 0 is exact. */
  lemma ZeroQuotient(q: Number, a: Number, b: Number, r: nat)
    requires r >= 1 && Val(q.mant, r) == 0 && Val(a.mant, r) == 0 && Val(b.mant, r) != 0
    ensures QuotientBounds(q, a, b, r) && ExactQuotient(q, a, b, r)
  {
    var E := q.exp + b.exp;
    var M := Min(a.exp, E);
    assert (Val(q.mant, r) + 1) * Val(b.mant, r) * Pow(r, E - M) == Val(b.mant, r) * Pow(r, E - M);
  }

  /** divnum: dividing by the one-form 1 only multiplies the signs; anything
      else goes through _divnum. */
  method DivNum(a: Number, b: Number, radix: nat, precision: int) returns (c: Number)
    requires radix >= 2 && Valid(a, radix) && Normalized(a)
    requires Valid(b, radix) && Normalized(b) && Val(b.mant, radix) != 0
    ensures Valid(c, radix) && Normalized(c) && c.sign == a.sign * b.sign
    ensures IsOneForm(b) ==> c == a.(sign := a.sign * b.sign)
    ensures QuotientBounds(c, a, b, radix)
    ensures !IsOneForm(b) ==> |c.mant| <= DigitLimit(a, b, precision)
    ensures !IsOneForm(b) && AllZero(a.mant) ==> c.mant == [0] && c.exp == 0
    ensures ExactQuotient(c, a, b, radix) ||
      (!IsOneForm(b) && !AllZero(a.mant) && c.exp == MSD(a) - MSD(b) + 1 - DigitLimit(a, b, precision))
    ensures !IsOneForm(b) && !AllZero(a.mant) && ExactQuotient(c, a, b, radix) ==> c.mant[0] != 0
  {
    if |b.mant| > 1 || b.mant[0] != 1 || b.exp != 0 {
      c := DivNumCore(a, b, radix, precision);
      if AllZero(a.mant) {
        ValAllZero(a.mant, radix);
        ZeroQuotient(c, a, b, radix);
      }
    } else {
      c := a.(sign := a.sign * b.sign);
      SignProduct(a.sign, b.sign);
      DivideByOne(a, b, radix);
    }
  }

  /** Dividing by the one-form is exact and leaves the digits and exponent alone. */
  lemma DivideByOne(a: Number, b: Number, r: nat)
    requires IsOneForm(b)
    ensures QuotientBounds(a, a, b, r) && ExactQuotient(a, a, b, r)
  {
    assert Val(b.mant, r) == 1 by {
      assert b.mant == [] + [1];
    }
  }
}
