/** remnum: *pa %= b by subtracting a working multiple of b, tmp, until *pa
    is below b in the lessnum order. tmp and lasttmp are std::optional
    values that start out empty, and the first pass of the loop reads *tmp
    before anything has been stored in it; the model makes that read an
    outcome of its own. */
module Rem {
  import opened Digits
  import opened Numbers
  import opened Compare
  import opened Add
  import opened Div

  datatype Option<T> = None | Some(value: T)

  /** How a run of remnum ends: with the remainder; by reading an empty
      optional, which C++ leaves undefined; or, in the model only, because
      the step budget ran out. */
  datatype RemOutcome = Done(n: Number) | EmptyDeref | OutOfFuel

  /** `tmp->sign = -1*(*pa).sign; addnum(pa, *tmp, radix);`: the working
      value gets the sign opposite to the remainder's and is added to it, so
      the remainder moves towards zero by |t|; when |t| does not exceed the
      remainder's magnitude the new magnitude is exactly the difference. */
  method SubtractWorking(pa: Number, t: Number, radix: nat) returns (next: Number, tmp: Number)
    requires radix >= 2 && Valid(pa, radix) && Valid(t, radix)
    ensures tmp == t.(sign := -pa.sign) && Valid(next, radix)
    ensures var M := Min(pa.exp, t.exp);
      M <= next.exp && SignedScaled(next, M, radix) == SignedScaled(pa, M, radix) - pa.sign * Scaled(t, M, radix)
    ensures var M := Min(pa.exp, t.exp);
      Scaled(t, M, radix) <= Scaled(pa, M, radix) ==> Scaled(next, M, radix) + Scaled(t, M, radix) == Scaled(pa, M, radix)
  {
    tmp := t.(sign := -1 * pa.sign);
    next := AddNum(pa, tmp, radix);
    var M := Min(pa.exp, t.exp);
    ghost var A: nat, T: nat, X: nat := Scaled(pa, M, radix), Scaled(t, M, radix), Scaled(next, M, radix);
    assert Scaled(tmp, M, radix) == T;
    assert next.sign * X == pa.sign * A + (-1 * pa.sign) * T;
    SubtractArith(next.sign, pa.sign, X, A, T);
  }

  /** The sign bookkeeping of one subtraction: cs * X = s * A - s * T, and
      when T is at most A the magnitudes subtract. */
  lemma SubtractArith(cs: int, s: int, X: nat, A: nat, T: nat)
    requires (cs == 1 || cs == -1) && (s == 1 || s == -1)
    requires cs * X == s * A + (-1 * s) * T
    ensures cs * X == s * A - s * T
    ensures T <= A ==> X + T == A
  {
    if s == 1 {
      assert cs * X == A - T;
    } else {
      assert cs * X == T - A;
    }
  }

  /** The loop of remnum, from a given content of tmp (remnum itself starts
      it empty). The loop ends only once lessnum(*pa, b) holds; a first pass
      with tmp empty ends in EmptyDeref. fuel bounds the number of additions
      and passes, which C++ does not bound. */
  method RemLoop(a: Number, b: Number, tmp0: Option<Number>, radix: nat, fuel: nat) returns (out: RemOutcome)
    requires radix >= 2 && Valid(a, radix) && Valid(b, radix)
    requires tmp0.Some? ==> Valid(tmp0.value, radix)
    ensures out.Done? ==> Valid(out.n, radix) && DigitsLess(out.n, b)
    ensures DigitsLess(a, b) ==> out == Done(a)
    ensures tmp0.None? && !DigitsLess(a, b) ==> out == EmptyDeref
  {
    var pa := a;
    var tmp := tmp0;
    var lasttmp: Option<Number> := None;
    var budget := fuel;
    ghost var first := true;
    var done := LessNum(pa, b);
    while !done
      invariant Valid(pa, radix) && (tmp.Some? ==> Valid(tmp.value, radix))
      invariant done == DigitsLess(pa, b)
      invariant first ==> pa == a && tmp == tmp0
      invariant !first ==> tmp0.Some? && !DigitsLess(a, b)
      decreases budget
    {
      if tmp.None? {
        return EmptyDeref;
      }
      if budget == 0 {
        return OutOfFuel;
      }
      budget := budget - 1;
      ghost var passBudget := budget;
      var t := tmp.value;
      var near := LessNum(t, pa);
      if near {
        // Start off close to the right answer: MSD(t) one below MSD(*pa).
        t := t.(exp := |pa.mant| + pa.exp - |t.mant|);
        if MSD(pa) <= MSD(t) {
          t := t.(exp := t.exp - 1);
        }
      }
      lasttmp := Some(Zero());
      var grow := LessNum(t, pa);
      while grow
        invariant Valid(t, radix) && budget <= passBudget
        decreases budget
      {
        if budget == 0 {
          return OutOfFuel;
        }
        budget := budget - 1;
        t := AddNum(t, t, radix);
        grow := LessNum(t, pa);
      }
      var over := LessNum(pa, t);
      if over {
        // Too far: back up to lasttmp.
        tmp := lasttmp;
        lasttmp := None;
        t := tmp.value;
      }
      pa, t := SubtractWorking(pa, t, radix);
      tmp := Some(t);
      done := LessNum(pa, b);
      first := false;
    }
    return Done(pa);
  }

  /** remnum as written: a dividend already below b is returned unchanged;
      any other dividend makes the first pass read the empty tmp. */
  method RemNum(a: Number, b: Number, radix: nat, fuel: nat) returns (out: RemOutcome)
    requires radix >= 2 && Valid(a, radix) && Valid(b, radix)
    ensures DigitsLess(a, b) ==> out == Done(a)
    ensures !DigitsLess(a, b) ==> out == EmptyDeref
  {
    out := RemLoop(a, b, None, radix, fuel);
  }
}
