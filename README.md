# ratpak digit kernel in Dafny

A model of the digit-level arithmetic of the calculator's ratpak engine,
`src/CalcManager/Ratpack/num.cpp`: `addnum`/`_addnum`, `mulnum`/`_mulnum`,
`divnum`/`_divnum`, `remnum`, `equnum`, `lessnum` and `zernum`, over the
`NUMBER` record (a sign of +1 or -1, the exponent of the least significant
digit, and `cdigit` digits in base `radix`, least significant first).

Each C++ routine is a Dafny method with the same loops, branches and
counters. The digit buffer that `createnum` allocates zero-filled is a local
`array<nat>`, so every write is bounds-checked against the cells the C++
code allocates. The assignment `*pa = c` becomes the returned `Number`. The
methods are proved against value functions:

- `Val(s, r)` is the digit string read in radix `r`.
- `Scaled(x, L, r)` is `|x|` in units of `r^L`.
- `SignedScaled` is the same with the sign.

The comparisons are proved against predicates that restate the scan
(`SameDigits`, `DigitsLess`). Lemmas then say what those predicates mean for
the values.

Files:

- `digits.dfy`: `Val`, `Pow` and the digit-string lemmas.
- `numbers.dfy`: the `Number` datatype, `MSD`, and the windows and scalings
  used to compare two numbers.
- `compare.dfy`: `zernum`, `equnum` and `lessnum`.
- `add.dfy`: `addnum`/`_addnum` and the closing zero-strip loop shared with
  `_mulnum` and `_divnum`.
- `mul.dfy`: `mulnum`/`_mulnum`.
- `div.dfy`: `divnum`/`_divnum`.
- `rem.dfy`: `remnum`.

Behaviours of the code worth noting:

- The one-form fast paths of `mulnum` and `divnum` test only the digit 1 and
  exponent 0. They also fire for -1 and multiply the signs.
- `_divnum` keeps the dividend's sign on the working remainder and gives the
  same sign to the divisor copy. It does not start from `|a|`.
- `lessnum` and `equnum` order zeros by their `cdigit + exp` like any other
  number. They are magnitude comparisons only for nonzero normalized
  operands.
- `remnum` reads its empty `optional` before storing anything in it.

## Model

| member | source | states |
|---|---|---|
| Compare.ZerNum | src/CalcManager/Ratpack/num.cpp:619-637 | true exactly when every one of the `cdigit` digits is 0 |
| Compare.EquNum | src/CalcManager/Ratpack/num.cpp:493-543 | true exactly when the MSD positions agree and the digits agree from the top down, the shorter operand padded with 0 at the bottom; the sign is never read |
| Compare.LessNum | src/CalcManager/Ratpack/num.cpp:559-605 | true exactly when a's MSD position is lower, or the MSD positions agree and the first differing digit from the top is smaller in a; equal digits give false; the sign is never read |
| Compare.EquNumMeansEqualValue | src/CalcManager/Ratpack/num.cpp:488-541 | for normalized operands, equnum holds iff the magnitudes are equal, except that a zero equals only a zero with the same exponent |
| Compare.LessNumMeansLessValue | src/CalcManager/Ratpack/num.cpp:553-602 | for nonzero normalized operands, lessnum holds iff \|a\| < \|b\| |
| Compare.LessNumWithZero | src/CalcManager/Ratpack/num.cpp:571-602 | with a zero operand lessnum is decided by the MSD positions alone: zero is less than a nonzero number iff its MSD is not above the other's, and a nonzero number is less than zero iff its MSD is below |
| Compare.EquNumReflexive | src/CalcManager/Ratpack/num.cpp:519-540 | equnum(a, a) is true |
| Compare.LessNumIrreflexive | src/CalcManager/Ratpack/num.cpp:584-602 | lessnum(a, a) is false |
| Compare.FirstDiffLessIsWindowLess | src/CalcManager/Ratpack/num.cpp:589-600 | with equal MSD positions, the first smaller digit from the top holds iff the zero-padded digit strings compare less as values |
| Add.AddNum | src/CalcManager/Ratpack/num.cpp:45-59 | a zero b leaves a unchanged; a zero a with nonzero b gives b; otherwise the result is _addnum's; the signed value is a + b; with equal signs the sign is kept; normalized operands give a normalized result |
| Add.AddNumCore | src/CalcManager/Ratpack/num.cpp:61-177 | valid and normalized; exponent min(a.exp, b.exp); signed value a + b; at most one digit more than the aligned span, and that only when the signs agree; same signs keep the sign; mixed signs give +1 exactly when a + b >= 0, so exact cancellation is a +1 zero |
| Add.OperandsSum | src/CalcManager/Ratpack/num.cpp:81-125 | the digit streams fed to the carry loop add up to \|a\| + \|b\| when the signs agree, and to r^n + a + b when they differ (negative operand complemented, carry seeded at 1) |
| Add.ReadDigit | src/CalcManager/Ratpack/num.cpp:107-125 | the padding test reads exactly the operand's digit at the current position (0 outside its digits), complemented when flagged, and advances the read pointer only past a real digit |
| Add.PaddedRead | src/CalcManager/Ratpack/num.cpp:108-114 | the C++ padding condition holds iff the position lies within the operand's digits |
| Add.AddAligned | src/CalcManager/Ratpack/num.cpp:102-131 | every emitted digit is below the radix, the final carry is 0 or 1, cells past the span are untouched, and digits plus carry times r^n equal the sum of the two streams plus the initial carry |
| Add.AlignedSum | src/CalcManager/Ratpack/num.cpp:133-158 | same signs: digits and carry hold \|a\| + \|b\|; mixed signs with carry 1: the digits hold a + b >= 0; mixed signs without carry: a + b < 0 and the digits hold its nonzero complement r^n + a + b |
| Add.SettleSum | src/CalcManager/Ratpack/num.cpp:133-168 | the extra carry digit is appended only when the signs agree; the sign is the operands' when they agree and +1 iff the sum is non-negative otherwise; sign times the digits' value is the signed sum |
| Add.RecomplementMagnitude | src/CalcManager/Ratpack/num.cpp:153-166 | the in-place pass turns the complement r^n - m back into m (digits stay below the radix, cells past n untouched); a zero input stays zero |
| Add.ComplementStep | src/CalcManager/Ratpack/num.cpp:163-165 | one pass of the re-complement loop keeps "digits so far plus carry equals complemented input plus 1" and the carry at most 1 |
| Add.StripZeros | src/CalcManager/Ratpack/num.cpp:170-175 | keeps at least one digit, stops at a nonzero top digit or at one digit, drops only zeros, and keeps the value |
| Add.Trimmed | src/CalcManager/Ratpack/num.cpp:170-175 | the kept digits are a normalized digit string of the same value, and they are the bottom digits of the buffer |
| Mul.MulNum | src/CalcManager/Ratpack/num.cpp:196-216 | a one-form b only multiplies the signs; a one-form a becomes b with the signs multiplied; in every case sign a.sign * b.sign, exponent a.exp + b.exp and magnitude \|a\| * \|b\|; normalized unless returned by a fast path from an unnormalized operand |
| Mul.MulNumCore | src/CalcManager/Ratpack/num.cpp:218-295 | valid and normalized; sign a.sign * b.sign; exponent a.exp + b.exp; digits' value \|a\| * \|b\|; at most a.cdigit + b.cdigit digits |
| Mul.MulDigits | src/CalcManager/Ratpack/num.cpp:238-285 | the a.cdigit + b.cdigit cells hold the product; the digit count starts one short and grows exactly when the product of the two top digits is nonzero; the counted digits alone hold the whole product |
| Mul.MulRow | src/CalcManager/Ratpack/num.cpp:255-284 | one pass of the middle loop adds da * b * r^i to the result, keeps every cell a digit, and reports whether the top-digit product was nonzero |
| Mul.Accumulate | src/CalcManager/Ratpack/num.cpp:257-280 | the carry loop adds the digit product at its position into the cells, carries stay within the allocated cells and every cell stays below the radix |
| Mul.CarryInto | src/CalcManager/Ratpack/num.cpp:272-279 | one carry step keeps the running total, keeps the carry at most 1, and needs a further cell only when one exists |
| Mul.RowFits | src/CalcManager/Ratpack/num.cpp:238-247 | every partial product a[..i+1] * b fits in the a.cdigit + b.cdigit cells allocated |
| Mul.ShortProduct | src/CalcManager/Ratpack/num.cpp:262-265 | with a zero top digit in either factor the product fits one digit fewer |
| Mul.TopProductZero | src/CalcManager/Ratpack/num.cpp:262-265 | when the top digits multiply to zero, the uncounted top cell of the product is zero |
| Div.DivNum | src/CalcManager/Ratpack/num.cpp:372-384 | a one-form divisor only multiplies the signs; otherwise _divnum's quotient; always sign a.sign * b.sign, truncated quotient bounds, and exact unless the digit budget ran out; an exact quotient from _divnum ends in a nonzero digit, so digit generation stopped at the first zero remainder |
| Div.DivNumCore | src/CalcManager/Ratpack/num.cpp:386-477 | valid and normalized; sign a.sign * b.sign; at most max(precision + 2, a.cdigit, b.cdigit) digits; a zero dividend gives one zero digit at exponent 0; q * b <= a < (q + 1) * b at q's last digit; exact unless the budget was used up, in which case the last digit sits at MSD(a) - MSD(b) + 1 - DigitLimit; an exact quotient of a nonzero dividend ends in a nonzero digit, because the loop stops at the first zero remainder, so its exponent is fixed |
| Div.BuildTable | src/CalcManager/Ratpack/num.cpp:413-423 | the list holds radix entries; entry radix-1-k stands for k times the divisor, the last one i32tonum(0) |
| Div.NextEntry | src/CalcManager/Ratpack/num.cpp:419-421 | adding the divisor to the entry for k gives the entry for k + 1 |
| Div.ChooseDigit | src/CalcManager/Ratpack/num.cpp:429-438 | the table scan picks the largest digit d with d * divisor <= remainder, and for d > 0 the matching table entry |
| Div.EntryTest | src/CalcManager/Ratpack/num.cpp:433 | lessnum(rem, entry for d) holds iff the remainder is below d times the divisor |
| Div.InitialRemainder | src/CalcManager/Ratpack/num.cpp:408-411 | moving the dividend's MSD to the divisor's makes the starting remainder less than radix times the divisor |
| Div.SubtractMultiple | src/CalcManager/Ratpack/num.cpp:440-445 | adding the negated entry takes exactly d times the divisor off the remainder and leaves the divisor's sign on a nonzero rest |
| Div.DivStep | src/CalcManager/Ratpack/num.cpp:429-446 | one digit step keeps the long-division invariant: remainder + radix * quotient * divisor is the dividend shifted by the digits produced, and the remainder stays below radix times the divisor; a zero digit leaves a nonzero remainder |
| Div.DivIteration | src/CalcManager/Ratpack/num.cpp:427-448 | one loop pass stores the new digit just below the earlier ones and extends the invariant by one digit; a pass that empties the remainder produced a nonzero digit |
| Div.StoreDigit | src/CalcManager/Ratpack/num.cpp:447 | `*ptrc--` writes the digit just below those already stored, leaving zeros beneath |
| Div.DivLoop | src/CalcManager/Ratpack/num.cpp:425-449 | the loop stops after thismax digits or at a zero remainder; the digits sit at the top of the buffer above zeros; the invariant holds for them; no digit at all means a zero dividend; when the remainder ends at zero the last digit stored is nonzero |
| Div.DivDigits | src/CalcManager/Ratpack/num.cpp:402-449 | table plus loop from the aligned dividend: the digits produced and the remainder satisfy the long-division invariant, and a zero remainder leaves a nonzero last digit |
| Div.CopyDown | src/CalcManager/Ratpack/num.cpp:451-454 | std::copy moves the n digits to the start of the buffer and leaves the rest |
| Div.PackDigits | src/CalcManager/Ratpack/num.cpp:449-474 | no digits gives the single digit 0; otherwise at most n normalized digits of the same value as the digits produced, starting with the least significant digit produced |
| Div.QuotientDigits | src/CalcManager/Ratpack/num.cpp:386-474 | the packed quotient digits stand in the long-division invariant, and none are produced only for a zero dividend; a zero remainder leaves a nonzero lowest digit |
| Div.QuotientFromLoop | src/CalcManager/Ratpack/num.cpp:461-469 | read at exponent MSD(a) - MSD(b) + 1 - n, the digits are a / b truncated, and they are exactly a / b if and only if the remainder is zero |
| Div.ZeroQuotient | src/CalcManager/Ratpack/num.cpp:461-465 | the zero produced for a zero dividend is the exact quotient |
| Div.DivideByOne | src/CalcManager/Ratpack/num.cpp:375-383 | dividing by the one-form is exact with the digits and exponent unchanged |
| Rem.SubtractWorking | src/CalcManager/Ratpack/num.cpp:347-349 | the working value gets the sign opposite to the remainder's; the new remainder is the old one moved towards zero by \|tmp\|, exactly the difference of magnitudes when \|tmp\| does not exceed it |
| Rem.RemLoop | src/CalcManager/Ratpack/num.cpp:320-352 | the loop returns a remainder only once lessnum(*pa, b) holds; a dividend already below b comes back unchanged; an empty tmp on entry ends in the empty read |
| Rem.RemNum | src/CalcManager/Ratpack/num.cpp:313-353 | a dividend below b in the lessnum order is returned unchanged; any other dividend makes the first pass read the empty tmp |

## Left out

- The machine widths of MANTTYPE and TWO_MANTTYPE are not modelled. Digits
  and carries are unbounded naturals. The carries stay at most 1 in
  `_addnum` and below `2 * radix` in `_mulnum`, but nothing checks that
  `radix * radix` fits the C++ types.
- Exponents, digit counts and the counters `cdigits`, `thismax` and
  `precision` are unbounded integers. The C++ `int32_t` overflow of
  `a.exp + b.exp` in `_mulnum`, of `precision + 2`, `rem.exp++` and
  `c.exp -= cdigits` in `_divnum`, and of the exponent and digit-count
  arithmetic in `_addnum` is not modelled.
- `radix >= 2`, digits below the radix and a nonzero normalized divisor are
  caller duties that the C++ code does not check. They appear as `requires`
  clauses.
- Div.DivNumCore: requires a normalized dividend, which the C++ code does
  not check. The table search relies on lessnum being a value comparison,
  which holds only for normalized remainders.
- Div.DivNum: requires a normalized dividend, for the same reason.
- Rem.RemLoop: does not claim anything about the value of the remainder. As
  written, `lasttmp` is only ever `i32tonum(0)` inside a pass, so the
  back-off subtracts zero, and the loop need not end.
- Rem.RemLoop: does not run without a step budget. The `fuel` parameter
  bounds the additions and passes, and running out of it is an outcome of
  its own (`OutOfFuel`), because an unbounded loop cannot be written
  without a termination measure.
- Rem.RemNum: reading the empty `optional` is undefined behaviour in C++.
  The model makes it the outcome `EmptyDeref` instead of continuing with
  some value.
- Compare.EquNumMeansEqualValue: is stated for normalized operands only,
  because an unnormalized zero top digit changes `cdigit + exp` without
  changing the value.
- Compare.LessNumMeansLessValue: is stated for nonzero normalized operands
  only. `Compare.LessNumWithZero` gives the behaviour with a zero operand.
- `createnum`, `DUPNUM`, `i32tonum` and the `MSD` macro live in `ratpak.h`,
  which is not part of this model. They appear as a zero-filled `new nat[n]`,
  value copies of `Number`, `Zero()` and `MSD`.
- The `std::list` container of the division table becomes a sequence with
  entries in the same order. The empty clean-up loop over it is not
  modelled.
- The `c.cdigit++` in `_mulnum` is taken on the last digit product of the
  last row, as in C++. The stale `icdigit` of the C++ inner loop is reset on
  every call of `Mul.Accumulate`. This is equivalent, because the loop body
  runs only when the product is nonzero, and then C++ resets it too.
