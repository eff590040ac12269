/**
  libethash-cl/ethash_cl_miner.cpp, count_leading_zeros, makeMagic and DivMagic: the constants by
  which a kernel divides 32-bit numbers with a multiplication and a shift.
 */
module DivMagic {
  import opened Arithmetic

  const Word := 0x1_0000_0000

  /** The constants handed over as ALGO_STEPS, SHIFT2 and MAGIC. */
  datatype Flags = Flags(steps: nat, shift2: nat, magic: nat)

  /** How the constants stand for a multiplier and a shift beyond 32 bits. */
  function Multiplier(f: Flags): nat { if f.steps == 1 then f.magic else Word + f.magic }

  function Shift(f: Flags): nat { 32 + (if f.steps == 1 then f.shift2 else f.shift2 + 1) }

  function Quotient(f: Flags, x: nat): int { x * Multiplier(f) / Pow2(Shift(f)) }

  /** The constants divide every 32-bit number by `d`. */
  ghost predicate Divides(f: Flags, d: nat)
    requires d > 0
  {
    forall x: nat | x < Word :: Quotient(f, x) == x / d
  }

  ghost predicate IsPowerOf2(d: nat) { exists k: nat :: d == Pow2(k) }

  method CountLeadingZeros(val: nat) returns (result: nat)
    requires val < Word
    ensures val > 0 ==> result <= 31 && Pow2(31 - result) <= val < Pow2(32 - result)
    ensures val == 0 ==> result == 32
  {
    Pow2Of32();
    var hi := 0x8000_0000;
    result := 0;
    while hi != 0 && (val / hi) % 2 == 0
      invariant result <= 32 && val < Pow2(32 - result)
      invariant hi == if result == 32 then 0 else Pow2(31 - result)
      decreases 32 - result
    {
      HighBit(val, hi);
      hi := hi / 2;
      result := result + 1;
    }
    if hi != 0 { HighBit(val, hi); }
  }

  /** Below twice a power of two, the bit there tells which half a number is in. */
  lemma HighBit(val: nat, hi: nat)
    requires hi > 0 && val < 2 * hi
    ensures (val / hi) % 2 == 0 <==> val < hi
  {
    if val < hi { DivUnique(val, hi, 0, val); } else { DivUnique(val, hi, 1, val - hi); }
  }

  /**
    makeMagic: quotient and remainder of 2^(32 + shift) by the divisor. Of a quotient beyond 32
    bits the lower ones are left; the remainder is right all the same.
   */
  method MakeMagic(shift: nat, divisor: nat) returns (result: nat, rem: nat)
    requires shift < 32 && 0 < divisor < Word
    ensures var n := Pow2(shift) * Word; result == (n / divisor) % Word && rem == n % divisor
    ensures Pow2(shift) < divisor <==> Pow2(shift) * Word == result * divisor + rem
  {
    var m := Pow2(shift);
    var n := m * Word;
    result := (n / divisor) % Word;
    rem := (n - result * divisor) % Word;
    RemainderSurvives(n, divisor, m);
    QuotientFits(n, divisor, m);
  }

  /** What is cut off the quotient is a multiple of the word and no part of the remainder. */
  lemma RemainderSurvives(n: nat, d: nat, p: nat)
    requires 0 < d < Word && n == p * Word
    ensures (n - ((n / d) % Word) * d) % Word == n % d
  {
    var q, r := n / d, n % d;
    var cut := q / Word;
    assert q == cut * Word + q % Word && n == q * d + r;
    MulDistributes(d, cut * Word, q % Word);
    MulAssociates(cut, Word, d);
    MulAssociates(cut, d, Word);
    MulCommutes(Word, d);
    var rest := n - (q % Word) * d;
    assert rest == (cut * d) * Word + r;
    DivUnique(rest, Word, cut * d, r);
  }

  /** Below the divisor a power has a quotient of 32 bits, and from the divisor on it has not. */
  lemma QuotientFits(n: nat, d: nat, p: nat)
    requires 0 < d < Word && n == p * Word
    ensures p < d <==> n == ((n / d) % Word) * d + n % d
  {
    var q, r := n / d, n % d;
    assert n == q * d + r;
    if p < d {
      QuotientBelowWord(q, d, r, p);
      assert q % Word == q;
    } else {
      MulMonotone(Word, d, p);
      if q < Word { MulMonotone(d, q, Word - 1); MulDistributes(d, Word, -1); }
      assert q % Word < q;
      MulMonotone(d, q % Word + 1, q);
      MulDistributes(d, q % Word, 1);
    }
  }

  lemma QuotientBelowWord(q: int, d: nat, r: nat, p: nat)
    requires p < d && q * d + r == p * Word && r < d
    ensures 0 <= q < Word
  {
    if q >= Word { MulMonotone(d, Word, q); }
    if q < 0 { MulMonotone(d, q, -1); }
  }

  /** The second step: from quotient and remainder of `n`, of 32 bits each, the quotient of twice `n`. */
  method DoubleMagic(q: nat, rem: nat, d: nat, ghost n: nat) returns (magic: nat)
    requires 0 < d < Word && q == (n / d) % Word && rem == n % d
    ensures magic == (2 * n / d) % Word
  {
    magic := (q + q) % Word;
    var twiceRem := (rem + rem) % Word;
    DoublingDoubles(q, rem, d, n);
    if twiceRem >= d || twiceRem < rem {
      magic := magic + 1;
    }
    magic := magic % Word;
  }

  lemma DoublingDoubles(q: nat, rem: nat, d: nat, n: nat)
    requires 0 < d < Word && q == (n / d) % Word && rem == n % d
    ensures var twice := (rem + rem) % Word;
      ((q + q) % Word + if twice >= d || twice < rem then 1 else 0) % Word == (2 * n / d) % Word
  {
    var more := TwiceTheQuotient(n, d);
    DoublingSteps(n / d, rem, d, more);
  }

  lemma DoublingSteps(half: nat, rem: nat, d: nat, more: nat)
    requires rem < d < Word && more == if 2 * rem >= d then 1 else 0
    ensures var twice := (rem + rem) % Word;
      ((half % Word + half % Word) % Word + if twice >= d || twice < rem then 1 else 0) % Word == (2 * half + more) % Word
  {
    TwiceWraps(rem, d);
    DoublingWraps(half, more);
  }

  lemma TwiceTheQuotient(n: nat, d: nat) returns (more: nat)
    requires d > 0
    ensures n / d >= 0 && more == (if 2 * (n % d) >= d then 1 else 0) && 2 * n / d == 2 * (n / d) + more
  {
    var q, r := n / d, n % d;
    more := if 2 * r >= d then 1 else 0;
    assert n == q * d + r;
    QuotientNatural(q, d, r);
    MulDistributes(d, 2 * q, more);
    MulAssociates(2, q, d);
    DivUnique(2 * n, d, 2 * q + more, 2 * r - more * d);
  }

  lemma TwiceWraps(rem: nat, d: nat)
    requires rem < d < Word
    ensures var twice := (rem + rem) % Word; (twice >= d || twice < rem) <==> 2 * rem >= d
  {
    if rem + rem >= Word { assert (rem + rem) % Word == rem + rem - Word; }
  }

  lemma DoublingWraps(q: nat, more: nat)
    requires more <= 1
    ensures ((q % Word + q % Word) % Word + more) % Word == (2 * q + more) % Word
  {
    var c, r := q / Word, q % Word;
    if 2 * r + more < Word {
      DivUnique(2 * q + more, Word, 2 * c, 2 * r + more);
    } else {
      DivUnique(2 * q + more, Word, 2 * c + 1, 2 * r + more - Word);
    }
  }

  /**
    DivMagic, for every divisor but zero, by which the program divides. The constants are right
    exactly for the divisors that are no power of two.
   */
  method Build(d: nat) returns (f: Flags)
    requires 0 < d < Word
    ensures Divides(f, d) <==> !IsPowerOf2(d)
    ensures 1 <= f.steps <= 2 && f.shift2 < 32 && f.magic < Word && Pow2(f.shift2) <= d < Pow2(f.shift2 + 1)
    ensures f.steps == 1 <==> d - (Pow2(f.shift2) * Word) % d < Pow2(f.shift2)
    ensures if IsPowerOf2(d) then f == Flags(2, f.shift2, 1) else RoundsUp(f, d)
  {
    hide Pow2, Divides, RoundsUp, IsPowerOf2;
    var zeros := CountLeadingZeros(d);
    var log := 31 - zeros;
    var magic, rem := MakeMagic(log, d);
    var e := (d - rem) % Word;
    DivUnique(d - rem, Word, 0, d - rem);
    if e < Pow2(log) {
      f := Flags(1, log, (magic + 1) % Word);
      OneStep(d, log, magic, rem, e);
    } else {
      var doubled := DoubleMagic(magic, rem, d, Pow2(log) * Word);
      f := Flags(2, log, (doubled + 1) % Word);
      TwoSteps(d, log);
    }
  }

  /** The multiplier is the first above 2^s / d, and neither it nor its last increment leaves 32 bits. */
  ghost predicate RoundsUp(f: Flags, d: nat) {
    && 0 < f.magic
    && Pow2(Shift(f)) < Multiplier(f) * d <= Pow2(Shift(f)) + d
  }

  /** `d` lies above 2^log and below 2^(log + 1), so that it is no power of two. */
  lemma BetweenPowers(d: nat, log: nat)
    requires Pow2(log) < d < Pow2(log + 1)
    ensures !IsPowerOf2(d)
  {
    forall k: nat ensures d != Pow2(k) {
      if k <= log { Pow2Monotone(k, log); } else { Pow2Monotone(log + 1, k); }
    }
  }

  /** A multiplier slightly above power / d divides, as long as the excess stays below one in total. */
  lemma MultiplierDivides(d: nat, m: nat, power: nat, e: nat, x: nat)
    requires d > 0 && m * d == power + e && e * x < power
    ensures x * m / power == x / d
  {
    var a, b := x / d, x % d;
    assert x == a * d + b;
    QuotientNatural(a, d, b);
    Spread(a, b, d, m, power, e);
    Leftover(a, b, d, m, power, e);
    DivUnique(x * m, power, a, a * e + b * m);
  }

  lemma QuotientNatural(a: int, d: nat, b: nat)
    requires a * d + b >= 0 && b < d
    ensures a >= 0
  {
    if a < 0 { MulMonotone(d, a, -1); }
  }

  lemma Spread(a: nat, b: nat, d: nat, m: nat, power: nat, e: nat)
    requires m * d == power + e
    ensures (a * d + b) * m == a * power + (a * e + b * m)
  {
    MulDistributes(m, a * d, b);
    MulAssociates(a, d, m);
    MulDistributes(a, power, e);
  }

  lemma Leftover(a: nat, b: nat, d: nat, m: nat, power: nat, e: nat)
    requires m * d == power + e && b < d && e * (a * d + b) < power
    ensures 0 <= a * e + b * m < power
  {
    var r := a * e + b * m;
    MulDistributes(d, a * e, b * m);
    MulAssociates(b, m, d);
    MulDistributes(b, power, e);
    MulAssociates(a, e, d);
    MulAssociates(a, d, e);
    MulDistributes(e, a * d, b);
    assert r * d == e * (a * d + b) + b * power;
    MulMonotone(power, b + 1, d);
    MulDistributes(power, b, 1);
    if r >= power { MulMonotone(d, power, r); }
    MulMonotone(a, 0, e);
    MulMonotone(b, 0, m);
  }

  lemma MultiplierAlways(d: nat, f: Flags, e: nat, p: nat)
    requires d > 0 && p == Pow2(Shift(f) - 32) && Multiplier(f) * d == p * Word + e && e <= p
    ensures Divides(f, d) && Pow2(Shift(f)) == p * Word
  {
    Pow2Of32();
    Pow2Adds(Shift(f) - 32, 32);
    forall x: nat | x < Word ensures Quotient(f, x) == x / d {
      MulMonotone(x, e, p);
      MulMonotone(p, x, Word - 1);
      MultiplierDivides(d, Multiplier(f), p * Word, e, x);
    }
  }

  lemma OneStep(d: nat, log: nat, q: nat, rem: nat, e: nat)
    requires log < 32 && Pow2(log) <= d < Pow2(log + 1) && d < Word
    requires var n := Pow2(log) * Word; q == (n / d) % Word && rem == n % d
    requires Pow2(log) < d <==> Pow2(log) * Word == q * d + rem
    requires e == (d - rem) % Word && e < Pow2(log)
    ensures var f := Flags(1, log, (q + 1) % Word); Divides(f, d) && RoundsUp(f, d)
    ensures !IsPowerOf2(d)
  {
    var p := Pow2(log);
    if p == d { DivUnique(p * Word, d, Word, 0); }
    BetweenPowers(d, log);
    assert e == d - rem;
    MulDistributes(d, q, 1);
    MulMonotone(Word, p + 1, d);
    PowerFitsWord(log);
    assert q + 1 < Word;
    MultiplierAlways(d, Flags(1, log, q + 1), e, p);
  }

  lemma PowerFitsWord(log: nat)
    requires log < 32
    ensures Pow2(log) <= 0x8000_0000
  {
    Pow2Of32();
    Pow2Monotone(log, 31);
  }

  /** The constants for twice the power, of whose quotient the 33rd bit is left out. */
  function TwoStepFlags(d: nat, log: nat): Flags
    requires d > 0
  {
    Flags(2, log, (2 * (Pow2(log) * Word) / d % Word + 1) % Word)
  }

  lemma TwoSteps(d: nat, log: nat)
    requires log < 32 && Pow2(log) <= d < Pow2(log + 1) && d < Word
    ensures var f := TwoStepFlags(d, log);
      && (Divides(f, d) <==> !IsPowerOf2(d))
      && (if IsPowerOf2(d) then f == Flags(2, log, 1) else RoundsUp(f, d))
  {
    if d == Pow2(log) {
      PowerHasNoBits(d);
      FailsForPowers(d, log);
    } else {
      BetweenPowers(d, log);
      DoubledMagic(d, log);
    }
  }

  lemma PowerHasNoBits(d: nat)
    requires d > 0
    ensures 2 * (d * Word) / d % Word == 0
  {
    MulAssociates(2, Word, d);
    DivUnique(2 * (d * Word), d, 2 * Word, 0);
  }

  /** The constants for a power of two divide the divisor itself to zero. */
  lemma FailsForPowers(d: nat, log: nat)
    requires d == Pow2(log) && d < Word
    ensures var f := Flags(2, log, 1); Quotient(f, d) == 0 && !Divides(f, d) && IsPowerOf2(d)
  {
    Pow2Of32();
    Pow2Adds(log, 32);
    var f := Flags(2, log, 1);
    assert Pow2(Shift(f)) == 2 * (d * Word);
    DivUnique(d * (Word + 1), 2 * (d * Word), 0, d * (Word + 1));
    DivUnique(d, d, 1, 0);
    assert Quotient(f, d) != d / d;
  }

  lemma DoubledMagic(d: nat, log: nat)
    requires log < 32 && Pow2(log) < d < Pow2(log + 1) && d < Word
    ensures var f := TwoStepFlags(d, log); Divides(f, d) && RoundsUp(f, d)
  {
    var p := Pow2(log);
    var n := 2 * (p * Word);
    var m := n / d + 1;
    assert n == (n / d) * d + n % d;
    MulDistributes(d, n / d, 1);
    MultiplierRange(m, d, p);
    assert TwoStepFlags(d, log).magic == m - Word;
    MultiplierAlways(d, TwoStepFlags(d, log), m * d - n, 2 * p);
  }

  /** The multiplier has exactly 33 bits. */
  lemma MultiplierRange(m: nat, d: nat, p: nat)
    requires p < d < 2 * p && 2 * p * Word < m * d <= 2 * p * Word + d && d < Word
    ensures Word < m < 2 * Word
  {
    if m <= Word { MulMonotone(d, m, Word); MulMonotone(Word, d, 2 * p); }
    if m >= 2 * Word { MulMonotone(d, 2 * Word, m); MulMonotone(Word, p + 1, d); }
  }
}
