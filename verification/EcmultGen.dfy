/**
  ethminer/secp256k1/ecmult_gen_impl.h: multiples of the generator from a table of 64 rows, one for
  each four bits of the scalar, with two disguises. Every entry of row j carries an offset U_j, and
  the offsets add up to nothing; and the scalar is shifted by a blinding value, which the point that
  the sum starts from takes back.
 */
module EcmultGen {
  import opened Arithmetic
  import opened Ecmult
  import opened Group
  import opened Scalar

  /** The factor of U in the offset of row `j`. */
  function OffsetFactor(j: nat): int { if j < 63 then Pow2(j) else 1 - Pow2(63) }

  /** prec[j][i] == i * 16^j * G + U_j */
  function Entry<E>(g: Group<E>, gen: E, u: E, j: nat, i: nat): E {
    Combined(g, i * Pow2(4 * j), gen, OffsetFactor(j), u)
  }

  function OffsetSum(j: nat): int { if j == 0 then 0 else OffsetSum(j - 1) + OffsetFactor(j - 1) }

  lemma {:induction false} OffsetsSoFar(j: nat)
    requires j <= 63
    ensures OffsetSum(j) == Pow2(j) - 1
  {
    if j > 0 { OffsetsSoFar(j - 1); }
  }

  /** All offsets together are nothing. */
  lemma OffsetsCancel()
    ensures OffsetSum(64) == 0
  {
    OffsetsSoFar(63);
  }

  lemma LowExtends(s: nat, bit: nat, count: nat)
    ensures Low(s, bit + count) == Low(s, bit) + Bits(s, bit, count) * Pow2(bit)
  {
    HighAndLow(s, bit + count);
    HighAndLow(s, bit);
    RestTaken(s, bit, count);
    MulCommutes(Pow2(bit), Bits(s, bit, count));
  }

  lemma FourBits(s: nat, bit: nat)
    ensures Bits(s, bit, 4) < 16
  {
    HighAndLow(High(s, bit), 4);
  }

  /** The sum after `j` rows: the lowest 4 * j bits of the scalar, and the offsets of these rows. */
  function Partial<E>(g: Group<E>, gen: E, u: E, s: nat, j: nat): E {
    Combined(g, Low(s, 4 * j), gen, OffsetSum(j), u)
  }

  /** Four more bits and one more offset. */
  lemma AddsEntry<E(!new)>(g: Group<E>, gen: E, u: E, s: nat, j: nat, start: E)
    requires Lawful(g)
    ensures g.add(g.add(start, Partial(g, gen, u, s, j)), Entry(g, gen, u, j, Bits(s, 4 * j, 4)))
         == g.add(start, Partial(g, gen, u, s, j + 1))
  {
    LowExtends(s, 4 * j, 4);
    assert 4 * (j + 1) == 4 * j + 4;
    AddsCombined(g, Low(s, 4 * j), Bits(s, 4 * j, 4) * Pow2(4 * j), gen, OffsetSum(j), OffsetFactor(j), u);
    Associates(g, start, Partial(g, gen, u, s, j), Entry(g, gen, u, j, Bits(s, 4 * j, 4)));
  }

  lemma AddsCombined<E(!new)>(g: Group<E>, a: int, d: int, p: E, o: int, f: int, q: E)
    requires Lawful(g)
    ensures g.add(Combined(g, a, p, o, q), Combined(g, d, p, f, q)) == Combined(g, a + d, p, o + f, q)
  {
    Exchange(g, Times(g, a, p), Times(g, o, q), Times(g, d, p), Times(g, f, q));
    TimesAdd(g, a, d, p);
    TimesAdd(g, o, f, q);
  }

  /** ecmult_gen_context */
  class Context<E(!new)> {
    const group: Group<E>
    const gen: E
    /** The point of unknown scalar, with the generator added. */
    const u: E
    var prec: array2?<E>
    var blind: nat
    var initial: E

    ghost predicate Built()
      reads this, prec
    {
      && OfOrderN(group) && prec != null && prec.Length0 == 64 && prec.Length1 == 16
      && forall j, i | 0 <= j < 64 && 0 <= i < 16 :: prec[j, i] == Entry(group, gen, u, j, i)
    }

    /** What is blinded is taken back. */
    ghost predicate Blinded()
      reads this
    {
      blind < N && initial == group.neg(Times(group, blind, gen))
    }

    constructor (group: Group<E>, gen: E, nums: E)
      requires OfOrderN(group)
      ensures this.group == group && this.gen == gen && u == group.add(nums, gen) && prec == null
    {
      this.group, this.gen, u := group, gen, group.add(nums, gen);
      prec, blind, initial := null, 0, group.zero;
    }

    /** context_build, with the number that the first blinding draws. */
    method Build(b: nat)
      requires OfOrderN(group) && (prec != null ==> Built() && Blinded()) && 0 < b < N
      modifies this`prec, this`blind, this`initial
      ensures Built() && Blinded()
      ensures if old(prec) != null then prec == old(prec) && blind == old(blind) && initial == old(initial)
        else blind == N - b && initial == Times(group, b, gen)
    {
      if prec != null { return; }
      prec := Table();
      Blind(true, b);
    }

    /** The table, row after row; `gbase` is 16^j * G and `numsbase` the offset. */
    method Table() returns (prec: array2<E>)
      requires Lawful(group)
      ensures fresh(prec) && prec.Length0 == 64 && prec.Length1 == 16
      ensures forall j, i | 0 <= j < 64 && 0 <= i < 16 :: prec[j, i] == Entry(group, gen, u, j, i)
    {
      prec := new E[64, 16]((_, _) => group.zero);
      var gbase, numsbase := gen, u;
      TimesSmall(group, gen);
      TimesSmall(group, u);
      var j: nat := 0;
      while j < 64
        invariant j <= 64 && gbase == Times(group, Pow2(4 * j), gen)
        invariant j < 64 ==> numsbase == Times(group, OffsetFactor(j), u)
        invariant forall k, i | 0 <= k < j && 0 <= i < 16 :: prec[k, i] == Entry(group, gen, u, k, i)
      {
        FillRow(prec, j, gbase, numsbase);
        ghost var base := gbase;
        gbase := Times16(gbase);
        SixteenFold(group, Pow2(4 * j), gen);
        Pow2By4(j);
        numsbase := NextOffset(j, numsbase);
        j := j + 1;
      }
    }

    /** Sets a row to the offset, the offset and gbase, up to the offset and 15 * gbase. */
    method FillRow(prec: array2<E>, j: nat, gbase: E, numsbase: E)
      requires Lawful(group) && j < prec.Length0 && prec.Length1 == 16
      requires gbase == Times(group, Pow2(4 * j), gen) && numsbase == Times(group, OffsetFactor(j), u)
      modifies prec
      ensures forall k, i | 0 <= k < prec.Length0 && 0 <= i < 16 ::
        prec[k, i] == if k == j then Entry(group, gen, u, j, i) else old(prec[k, i])
    {
      hide Pow2, OffsetFactor, Times;
      prec[j, 0] := numsbase;
      FirstEntry(group, gen, u, j);
      for i := 1 to 16
        invariant forall k | 0 <= k < i :: prec[j, k] == Entry(group, gen, u, j, k)
        invariant forall k, m | 0 <= k < prec.Length0 && 0 <= m < 16 && k != j :: prec[k, m] == old(prec[k, m])
      {
        NextEntry(group, gen, u, j, i);
        prec[j, i] := group.add(prec[j, i - 1], gbase);
      }
    }

    /** Four doublings. */
    method Times16(p: E) returns (r: E)
      ensures r == Sixteen(group, p)
    {
      r := p;
      for i := 0 to 4
        invariant r == match i case 0 => p case 1 => Double(group, p)
          case 2 => Double(group, Double(group, p)) case 3 => Double(group, Double(group, Double(group, p)))
          case _ => Sixteen(group, p)
      {
        r := group.add(r, r);
      }
    }

    /** Doubles the offset, and after row 62 turns it into what makes all of them cancel. */
    method NextOffset(j: nat, numsbase: E) returns (next: E)
      requires Lawful(group) && j < 64 && numsbase == Times(group, OffsetFactor(j), u)
      ensures j < 63 ==> next == Times(group, OffsetFactor(j + 1), u)
    {
      Doubles(group, OffsetFactor(j), u);
      next := group.add(numsbase, numsbase);
      if j == 62 {
        TimesNeg(group, Pow2(63), u);
        TimesNext(group, 0 - Pow2(63), u);
        next := group.neg(next);
        next := group.add(next, u);
      }
    }

    /** ecmult_gen: gn * G, whatever the blinding. */
    method Multiply(gn: nat) returns (r: E)
      requires Built() && Blinded() && gn < N
      ensures r == Times(group, gn, gen)
    {
      var gnb := (gn + blind) % N;
      r := initial;
      NothingYet(group, gen, u, gnb, initial);
      for j := 0 to 64
        invariant r == group.add(initial, Partial(group, gen, u, gnb, j))
      {
        var bits := Bits(gnb, 4 * j, 4);
        FourBits(gnb, 4 * j);
        var add := Select(j, bits);
        AddsEntry(group, gen, u, gnb, j, initial);
        r := group.add(r, add);
      }
      Unblinds(group, gen, u, gn, blind, gnb);
    }

    /** The conditional moves: looks at the whole row and keeps the entry wanted. */
    method Select(j: nat, bits: nat) returns (add: E)
      requires Built() && j < 64 && bits < 16
      ensures add == Entry(group, gen, u, j, bits)
    {
      add := group.zero;
      for i := 0 to 16
        invariant i > bits ==> add == Entry(group, gen, u, j, bits)
      {
        if i == bits { add := prec[j, i]; }
      }
    }

    /**
      ecmult_gen_blind: `reset` if there is no seed; `b` is the number drawn. The point for the new
      blinding is computed under the old one.
     */
    method Blind(reset: bool, b: nat)
      requires Built() && (reset || Blinded()) && 0 < b < N
      modifies this`blind, this`initial
      ensures Built() && Blinded() && blind == N - b && initial == Times(group, b, gen)
    {
      if reset {
        TimesSmall(group, gen);
        initial := group.neg(gen);
        blind := 1;
      }
      var gb := Multiply(b);
      blind := Negate(b);
      initial := gb;
      TimesNeg(group, blind, gen);
      FactorModuloN(group, 0 - blind, b, gen);
    }
  }

  function Double<E>(g: Group<E>, p: E): E { g.add(p, p) }

  function Sixteen<E>(g: Group<E>, p: E): E { Double(g, Double(g, Double(g, Double(g, p)))) }

  lemma SixteenFold<E(!new)>(g: Group<E>, k: int, p: E)
    requires Lawful(g)
    ensures Sixteen(g, Times(g, k, p)) == Times(g, 16 * k, p)
  {
    Doubles(g, k, p);
    Doubles(g, 2 * k, p);
    Doubles(g, 4 * k, p);
    Doubles(g, 8 * k, p);
  }

  lemma FirstEntry<E(!new)>(g: Group<E>, gen: E, u: E, j: nat)
    requires Lawful(g)
    ensures Entry(g, gen, u, j, 0) == Times(g, OffsetFactor(j), u)
  {
    assert 0 * Pow2(4 * j) == 0;
    AddZero(g, Times(g, OffsetFactor(j), u));
  }

  lemma NextEntry<E(!new)>(g: Group<E>, gen: E, u: E, j: nat, i: nat)
    requires Lawful(g) && i > 0
    ensures Entry(g, gen, u, j, i) == g.add(Entry(g, gen, u, j, i - 1), Times(g, Pow2(4 * j), gen))
  {
    var p := Pow2(4 * j);
    MulDistributes(p, i - 1, 1);
    AddsLeft(g, (i - 1) * p, gen, OffsetFactor(j), u, p);
  }

  lemma NothingYet<E(!new)>(g: Group<E>, gen: E, u: E, s: nat, start: E)
    requires Lawful(g)
    ensures start == g.add(start, Partial(g, gen, u, s, 0))
  {
    AddZero(g, g.zero);
    AddZero(g, start);
  }

  /** -(blind * G) + (gn + blind) * G + 0 * U == gn * G */
  lemma Unblinds<E(!new)>(g: Group<E>, gen: E, u: E, gn: nat, blind: nat, gnb: nat)
    requires OfOrderN(g) && gn < N && gnb == (gn + blind) % N
    ensures g.add(g.neg(Times(g, blind, gen)), Partial(g, gen, u, gnb, 64)) == Times(g, gn, gen)
  {
    hide Low, OffsetSum;
    AllBits(gnb);
    OffsetsCancel();
    AddZero(g, Times(g, gnb, gen));
    FactorModuloN(g, gnb, gn + blind, gen);
    TimesNeg(g, blind, gen);
    TimesAdd(g, 0 - blind, gn + blind, gen);
  }

  lemma AllBits(s: nat)
    requires s < N
    ensures Low(s, 256) == s
  {
    Pow2Of255();
    HighAndLow(s, 256);
    if High(s, 256) > 0 { MulMonotone(Pow2(256), 1, High(s, 256)); }
  }

  lemma Pow2By4(j: nat)
    ensures Pow2(4 * (j + 1)) == 16 * Pow2(4 * j)
  {
    Pow2Adds(4 * j, 4);
    assert Pow2(4) == 16 && 4 * (j + 1) == 4 * j + 4;
  }
}
