/** mulnum and _mulnum: *pa *= b, one digit product at a time as on paper. */
module Mul {
  import opened Digits
  import opened Numbers
  import opened Add

  lemma Distrib2(a: nat, b: nat, p: nat)
    ensures (a + b) * p == a * p + b * p
  {
  }

  /** x < p and y < q give x * y < p * q. */
  lemma ProductBound(x: nat, y: nat, p: nat, q: nat)
    requires x < p && y < q
    ensures x * y < p * q
  {
    MulLeft(y, q, x);
    MulStrict(x, p, q);
  }

  /** One pass of the carry loop in _mulnum: the digit at k absorbs the carry
      and the low digit of the pending product, and both move up a place. */
  lemma AccumulateStep(s: seq<nat>, k: nat, cy: nat, m: nat, x: nat, r: nat)
    requires r >= 1 && k < |s| && x == cy + s[k] + m % r
    ensures Val(s[k := x % r], r) + (m / r + x / r) * Pow(r, k + 1) == Val(s, r) + (m + cy) * Pow(r, k)
  {
    ValUpdate(s, k, x % r, r);
    assert Pow(r, k + 1) == r * Pow(r, k);
    AccumulateArith(Val(s[k := x % r], r), Val(s, r), s[k], cy, m, x, r, Pow(r, k));
  }

  lemma AccumulateArith(vn: nat, vs: nat, sk: nat, cy: nat, m: nat, x: nat, r: nat, p: nat)
    requires r >= 1 && x == cy + sk + m % r && vn + sk * p == vs + (x % r) * p
    ensures vn + (m / r + x / r) * (r * p) == vs + (m + cy) * p
  {
    CarryArith(x, r, p);
    CarryArith(m, r, p);
    Distrib3(cy, sk, m % r, p);
    Distrib2(m / r, x / r, r * p);
    Distrib2(m, cy, p);
  }

  /** Something still to add at position e of a total below r^L means e < L. */
  lemma PositionInRange(v: nat, c: nat, e: nat, L: nat, r: nat)
    requires r >= 1 && c >= 1 && v + c * Pow(r, e) < Pow(r, L)
    ensures e < L
  {
    MulLeft(1, c, Pow(r, e));
    if e >= L {
      PowMono(r, L, e);
    }
  }

  lemma DivNonneg(m: nat, r: nat)
    requires r >= 1
    ensures 0 <= m / r
  {
  }

  /** One pass of the carry loop keeps the digits below the radix, keeps the
      total, and never needs a position past the end of the result. */
  lemma AccumulateKeeps(s: seq<nat>, k: nat, cy: nat, m: nat, x: nat, r: nat, target: nat)
    requires r >= 2 && IsDigits(s, r) && cy <= 1 && k < |s| && x == cy + s[k] + m % r
    requires Val(s, r) + (m + cy) * Pow(r, k) == target && target < Pow(r, |s|)
    ensures 0 <= x / r <= 1 && 0 <= m / r && 0 <= x % r < r
    ensures IsDigits(s[k := x % r], r)
    ensures Val(s[k := x % r], r) + (m / r + x / r) * Pow(r, k + 1) == target
    ensures m / r + x / r > 0 ==> k + 1 < |s|
  {
    assert x < 2 * r by { assert s[k] < r; }
    CarryAtMostOne(x, r);
    DivNonneg(m, r);
    assert IsDigits(s[k := x % r], r) by {
      DigitsUpdate(s, k, x % r, r);
    }
    AccumulateStep(s, k, cy, m, x, r);
    if m / r + x / r > 0 {
      PositionInRange(Val(s[k := x % r], r), m / r + x / r, k + 1, |s|, r);
    }
  }

  /** One pass of the innermost loop of _mulnum: the carry and the low digit
      of m are added into position k, the digit is kept and the rest moves up. */
  method CarryInto(buf: array<nat>, k: nat, m: nat, cy: nat, radix: nat, ghost target: nat)
    returns (nextM: nat, nextCy: nat)
    requires radix >= 2 && IsDigits(buf[..], radix) && cy <= 1 && k < buf.Length
    requires Val(buf[..], radix) + (m + cy) * Pow(radix, k) == target && target < Pow(radix, buf.Length)
    modifies buf
    ensures nextM == m / radix && nextCy <= 1 && IsDigits(buf[..], radix)
    ensures Val(buf[..], radix) + (nextM + nextCy) * Pow(radix, k + 1) == target
    ensures nextM + nextCy > 0 ==> k + 1 < buf.Length
  {
    ghost var s := buf[..];
    var x := cy + buf[k] + m % radix;
    AccumulateKeeps(s, k, cy, m, x, radix, target);
    var d: nat := x % radix;
    buf[k] := d;
    assert buf[..] == s[k := d];
    nextM, nextCy := m / radix, x / radix;
  }

  /** The innermost loop of _mulnum: add the product mcy into the result at
      position pos, carrying upward until nothing is left. */
  method Accumulate(buf: array<nat>, pos: nat, mcy: nat, radix: nat)
    requires radix >= 2 && IsDigits(buf[..], radix)
    requires Val(buf[..], radix) + mcy * Pow(radix, pos) < Pow(radix, buf.Length)
    modifies buf
    ensures IsDigits(buf[..], radix)
    ensures Val(buf[..], radix) == old(Val(buf[..], radix)) + mcy * Pow(radix, pos)
  {
    ghost var target: nat := Val(buf[..], radix) + mcy * Pow(radix, pos);
    var m: nat := mcy;
    var cy: nat := 0;
    var icdigit: nat := 0;
    if mcy > 0 {
      PositionInRange(Val(buf[..], radix), mcy, pos, buf.Length, radix);
    }
    while m != 0 || cy != 0
      invariant cy <= 1 && IsDigits(buf[..], radix)
      invariant Val(buf[..], radix) + (m + cy) * Pow(radix, pos + icdigit) == target
      invariant target < Pow(radix, buf.Length)
      invariant m + cy > 0 ==> pos + icdigit < buf.Length
      decreases buf.Length - (pos + icdigit)
    {
      m, cy := CarryInto(buf, pos + icdigit, m, cy, radix, target);
      icdigit := icdigit + 1;
    }
    assert (m + cy) * Pow(radix, pos + icdigit) == 0;
  }

  lemma RowArith(da: nat, bv: nat, d: nat, pi: nat, pj: nat)
    ensures da * bv * pi + (da * d) * (pi * pj) == da * (bv + d * pj) * pi
  {
    calc {
      da * (bv + d * pj) * pi;
      (da * bv + da * (d * pj)) * pi;
      da * bv * pi + da * (d * pj) * pi;
      { assert da * (d * pj) * pi == (da * d) * (pi * pj); }
      da * bv * pi + (da * d) * (pi * pj);
    }
  }

  /** Adding the product of da and digit j of b at position i + j extends the
      partial row da * b[..j] * r^i by one digit of b. */
  lemma RowStep(bm: seq<nat>, j: nat, da: nat, i: nat, r: nat)
    requires j < |bm|
    ensures da * Val(bm[..j], r) * Pow(r, i) + (da * bm[j]) * Pow(r, i + j) == da * Val(bm[..j + 1], r) * Pow(r, i)
  {
    ValPrefixStep(bm, j, r);
    PowAdd(r, i, j);
    RowArith(da, Val(bm[..j], r), bm[j], Pow(r, i), Pow(r, j));
  }

  /** A partial row never exceeds the whole row. */
  lemma RowPartialLe(bm: seq<nat>, j: nat, da: nat, p: nat, r: nat)
    requires j <= |bm|
    ensures da * Val(bm[..j], r) * p <= da * Val(bm, r) * p
  {
    ValPrefixLe(bm, j, r);
    ProductMono(da, Val(bm[..j], r), Val(bm, r), p);
  }

  lemma ProductMono(da: nat, x: nat, y: nat, p: nat)
    requires x <= y
    ensures da * x * p <= da * y * p
  {
    MulLeft(x, y, da);
    MulComm(x, da);
    MulComm(y, da);
    MulLeft(da * x, da * y, p);
  }

  /** The middle loop of _mulnum: add da * b * r^i into the result, one digit
      product at a time. The flag reports whether the product with b's top
      digit was nonzero, which on the last row decides whether the result
      needs its extra top digit. */
  method MulRow(buf: array<nat>, da: nat, i: nat, bm: seq<nat>, radix: nat) returns (lastNonzero: bool)
    requires radix >= 2 && IsDigits(buf[..], radix) && |bm| >= 1
    requires Val(buf[..], radix) + da * Val(bm, radix) * Pow(radix, i) < Pow(radix, buf.Length)
    modifies buf
    ensures IsDigits(buf[..], radix)
    ensures Val(buf[..], radix) == old(Val(buf[..], radix)) + da * Val(bm, radix) * Pow(radix, i)
    ensures lastNonzero == (da * bm[|bm| - 1] != 0)
  {
    ghost var v0 := Val(buf[..], radix);
    var j := 0;
    var ibdigit := |bm|;
    lastNonzero := false;
    while ibdigit > 0
      invariant 0 <= j <= |bm| && ibdigit == |bm| - j
      invariant IsDigits(buf[..], radix)
      invariant Val(buf[..], radix) == v0 + da * Val(bm[..j], radix) * Pow(radix, i)
      invariant lastNonzero == (j == |bm| && da * bm[|bm| - 1] != 0)
    {
      var mcy := da * bm[j];
      if mcy != 0 && ibdigit == 1 {
        lastNonzero := true;
      }
      RowStep(bm, j, da, i, radix);
      RowPartialLe(bm, j + 1, da, Pow(radix, i), radix);
      Accumulate(buf, i + j, mcy, radix);
      j := j + 1;
      ibdigit := ibdigit - 1;
    }
    assert bm[..j] == bm;
  }

  /** With a zero top digit in either factor the product fits one digit
      fewer than the sum of the lengths. */
  lemma ShortProduct(am: seq<nat>, bm: seq<nat>, r: nat)
    requires r >= 1 && |am| >= 1 && |bm| >= 1 && IsDigits(am, r) && IsDigits(bm, r)
    requires am[|am| - 1] == 0 || bm[|bm| - 1] == 0
    ensures Val(am, r) * Val(bm, r) < Pow(r, |am| + |bm| - 1)
  {
    if am[|am| - 1] == 0 {
      ValDropTopZero(am, r);
      ValBound(am[..|am| - 1], r);
      ValBound(bm, r);
      ProductBound(Val(am, r), Val(bm, r), Pow(r, |am| - 1), Pow(r, |bm|));
      PowAdd(r, |am| - 1, |bm|);
    } else {
      ValDropTopZero(bm, r);
      ValBound(am, r);
      ValBound(bm[..|bm| - 1], r);
      ProductBound(Val(am, r), Val(bm, r), Pow(r, |am|), Pow(r, |bm| - 1));
      PowAdd(r, |am|, |bm| - 1);
    }
  }

  /** Adding row i, da * b * r^i, to a[..i] * b gives a[..i+1] * b. */
  lemma RowAddArith(x: nat, d: nat, bv: nat, p: nat, y: nat)
    requires y == x + d * p
    ensures x * bv + d * bv * p == y * bv
  {
    Distrib2(x, d * p, bv);
    assert (d * p) * bv == d * bv * p;
  }

  lemma RowFitsArith(x: nat, d: nat, bv: nat, pi: nat, pi1: nat, pb: nat, pn: nat)
    requires x + d * pi < pi1 && bv < pb && pi1 * pb <= pn
    ensures x * bv + d * bv * pi < pn
  {
    ProductBound(x + d * pi, bv, pi1, pb);
    RowAddArith(x, d, bv, pi, x + d * pi);
  }

  /** The bound that lets row i be added: a[..i+1] * b fits in |a| + |b| digits. */
  lemma RowFits(am: seq<nat>, bm: seq<nat>, i: nat, r: nat)
    requires r >= 1 && i < |am| && IsDigits(am, r) && IsDigits(bm, r)
    ensures Val(am[..i], r) * Val(bm, r) + am[i] * Val(bm, r) * Pow(r, i) < Pow(r, |am| + |bm|)
  {
    ValPrefixBound(am, i, r);
    ValBound(bm, r);
    PowProductLe(r, i + 1, |bm|, |am| + |bm|);
    RowFitsArith(Val(am[..i], r), am[i], Val(bm, r), Pow(r, i), Pow(r, i + 1), Pow(r, |bm|), Pow(r, |am| + |bm|));
  }

  /** Row i takes the partial product from a[..i] * b to a[..i+1] * b. */
  lemma RowExtends(am: seq<nat>, i: nat, bv: nat, r: nat)
    requires i < |am|
    ensures Val(am[..i], r) * bv + am[i] * bv * Pow(r, i) == Val(am[..i + 1], r) * bv
  {
    ValPrefixStep(am, i, r);
    RowAddArith(Val(am[..i], r), am[i], bv, Pow(r, i), Val(am[..i + 1], r));
  }

  /** When the product of the top digits is zero the full product leaves the
      top cell of the result zero, so dropping that cell keeps the value. */
  lemma TopProductZero(s: seq<nat>, am: seq<nat>, bm: seq<nat>, r: nat)
    requires r >= 1 && |am| >= 1 && |bm| >= 1 && IsDigits(am, r) && IsDigits(bm, r)
    requires |s| == |am| + |bm| && Val(s, r) == Val(am, r) * Val(bm, r)
    requires am[|am| - 1] * bm[|bm| - 1] == 0
    ensures Val(s[..|s| - 1], r) == Val(s, r)
  {
    if am[|am| - 1] != 0 && bm[|bm| - 1] != 0 {
      MulLeft(1, am[|am| - 1], bm[|bm| - 1]);
    }
    ShortProduct(am, bm, r);
    TopDigitZero(s, r);
    ValDropTopZero(s, r);
  }

  /** The two nested loops of _mulnum: every digit of a times every digit of
      b, added in at the sum of their positions. The result has |a| + |b|
      cells; the count of cells in use starts one short and grows by one
      when the last digit product, of the two top digits, is nonzero. */
  method MulDigits(am: seq<nat>, bm: seq<nat>, radix: nat) returns (buf: array<nat>, cdigit: nat)
    requires radix >= 2 && |am| >= 1 && |bm| >= 1 && IsDigits(am, radix) && IsDigits(bm, radix)
    ensures fresh(buf) && buf.Length == |am| + |bm| && IsDigits(buf[..], radix)
    ensures cdigit == if am[|am| - 1] * bm[|bm| - 1] != 0 then buf.Length else buf.Length - 1
    ensures Val(buf[..cdigit], radix) == Val(am, radix) * Val(bm, radix)
  {
    var n := |am| + |bm|;
    buf := new nat[n](_ => 0);
    cdigit := n - 1;
    ghost var top := am[|am| - 1] * bm[|bm| - 1];
    ghost var bv := Val(bm, radix);
    assert buf[..] == Zeros(n);
    ValAllZero(buf[..], radix);
    var i := 0;
    var iadigit := |am|;
    while iadigit > 0
      invariant 0 <= i <= |am| && iadigit == |am| - i
      invariant IsDigits(buf[..], radix)
      invariant Val(buf[..], radix) == Val(am[..i], radix) * bv
      invariant cdigit == (if i == |am| && top != 0 then n else n - 1)
    {
      var da := am[i];
      RowFits(am, bm, i, radix);
      var lastNonzero := MulRow(buf, da, i, bm, radix);
      if lastNonzero && iadigit == 1 {
        cdigit := cdigit + 1;
      }
      RowExtends(am, i, bv, radix);
      i := i + 1;
      iadigit := iadigit - 1;
    }
    assert am[..i] == am;
    ghost var full := buf[..];
    ghost var ab := Val(am, radix) * bv;
    assert Val(full, radix) == ab;
    if cdigit == n - 1 {
      TopProductZero(full, am, bm, radix);
      assert buf[..cdigit] == full[..|full| - 1];
    } else {
      assert buf[..cdigit] == full;
    }
  }

  /** _mulnum: the schoolbook product of two digit strings. */
  method MulNumCore(a: Number, b: Number, radix: nat) returns (c: Number)
    requires radix >= 2 && Valid(a, radix) && Valid(b, radix)
    ensures Valid(c, radix) && Normalized(c)
    ensures c.sign == a.sign * b.sign && c.exp == a.exp + b.exp
    ensures Val(c.mant, radix) == Val(a.mant, radix) * Val(b.mant, radix)
    ensures |c.mant| <= |a.mant| + |b.mant|
  {
    var sign := a.sign * b.sign;
    var exp := a.exp + b.exp;
    var buf, cdigit := MulDigits(a.mant, b.mant, radix);
    DigitsPrefix(buf[..], cdigit, radix);
    var digits := Trimmed(buf, cdigit, radix);
    SignProduct(a.sign, b.sign);
    c := Number(sign, exp, digits);
  }

  /** mulnum: *pa *= b. A b of exactly one only multiplies the sign in, an a
      of exactly one is replaced by b with the signs multiplied, and anything
      else goes through _mulnum. */
  method MulNum(a: Number, b: Number, radix: nat) returns (c: Number)
    requires radix >= 2 && Valid(a, radix) && Valid(b, radix)
    ensures Valid(c, radix)
    ensures c.sign == a.sign * b.sign && c.exp == a.exp + b.exp
    ensures Val(c.mant, radix) == Val(a.mant, radix) * Val(b.mant, radix)
    ensures IsOneForm(b) ==> c == a.(sign := a.sign * b.sign)
    ensures !IsOneForm(b) && IsOneForm(a) ==> c == b.(sign := b.sign * a.sign)
    ensures !IsOneForm(a) && !IsOneForm(b) ==> Normalized(c) && |c.mant| <= |a.mant| + |b.mant|
    ensures Normalized(a) && Normalized(b) ==> Normalized(c)
  {
    if |b.mant| > 1 || b.mant[0] != 1 || b.exp != 0 {
      if |a.mant| > 1 || a.mant[0] != 1 || a.exp != 0 {
        c := MulNumCore(a, b, radix);
      } else {
        var sign := a.sign;
        c := b;
        c := c.(sign := c.sign * sign);
        assert a.mant == [1] && Val(a.mant, radix) == 1;
      }
    } else {
      c := a.(sign := a.sign * b.sign);
      assert b.mant == [1] && Val(b.mant, radix) == 1;
    }
  }
}
