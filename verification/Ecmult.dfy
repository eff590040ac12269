/**
  ethminer/secp256k1/ecmult_impl.h without the endomorphism: na * A + ng * G by one pass of
  doublings over two strings of digits, with tables of odd multiples.
 */
module Ecmult {
  import opened Arithmetic
  import opened Group
  import opened Scalar
  import opened Wnaf

  const WindowA: nat := 5
  const WindowG: nat := 16

  /** Every element has the group order. */
  ghost predicate OfOrderN<E(!new)>(g: Group<E>) {
    Lawful(g) && forall p: E {:trigger At(p, p, p)} :: Times(g, N, p) == g.zero
  }

  lemma FactorModuloN<E(!new)>(g: Group<E>, a: int, b: int, p: E)
    requires OfOrderN(g) && (a - b) % N == 0
    ensures Times(g, a, p) == Times(g, b, p)
  {
    assert At(p, p, p);
    TimesModulo(g, N, a, b, p);
  }

  /** 1 * a, 3 * a, 5 * a and so on. */
  ghost predicate OddOnes<E>(g: Group<E>, s: seq<E>, a: E) {
    forall i | 0 <= i < |s| :: s[i] == Times(g, 2 * i + 1, a)
  }

  /** `pre` holds as many odd multiples as the digits of a window need. */
  ghost predicate IsTable<E>(g: Group<E>, pre: seq<E>, a: E, w: nat) {
    w >= 2 && |pre| == Pow2(w - 2) && OddOnes(g, pre, a)
  }

  /** The windows are 5 and 16 bits wide, and their tables hold 8 and 16384 multiples. */
  lemma TableSizes()
    ensures WindowA == 5 && Pow2(WindowA - 2) == 8
    ensures WindowG == 16 && Pow2(WindowG - 2) == 16384
  {
    assert Pow2(7) == 128;
    Pow2Adds(7, 7);
  }

  /** table_precomp */
  method OddMultiples<E(!new)>(g: Group<E>, a: E, w: nat) returns (pre: array<E>)
    requires Lawful(g) && w >= 2
    ensures fresh(pre) && IsTable(g, pre[..], a, w)
  {
    var size := Pow2(w - 2);
    pre := new E[size](_ => a);
    var d := g.add(a, a);
    FirstOdd(g, a);
    var i: nat := 1;
    assert pre[..1] == [a];
    while i < size
      invariant 1 <= i <= size == pre.Length && OddOnes(g, pre[..i], a)
    {
      ghost var done := pre[..i];
      NextOdd(g, done, d, a);
      pre[i] := g.add(d, pre[i - 1]);
      assert pre[..i + 1] == done + [g.add(d, done[i - 1])];
      i := i + 1;
    }
    assert pre[..size] == pre[..];
  }

  lemma FirstOdd<E(!new)>(g: Group<E>, a: E)
    requires Lawful(g)
    ensures OddOnes(g, [a], a) && g.add(a, a) == Times(g, 2, a)
  {
    TimesSmall(g, a);
    Doubles(g, 1, a);
  }

  lemma NextOdd<E(!new)>(g: Group<E>, s: seq<E>, d: E, a: E)
    requires Lawful(g) && |s| > 0 && OddOnes(g, s, a) && d == g.add(a, a)
    ensures OddOnes(g, s + [g.add(d, s[|s| - 1])], a)
  {
    FirstOdd(g, a);
    assert s[|s| - 1] == Times(g, 2 * (|s| - 1) + 1, a);
    TimesAdd(g, 2, 2 * (|s| - 1) + 1, a);
  }

  /** An odd digit below the window in magnitude, which is what both lookups insist on. */
  predicate InWindow(n: int, w: nat) {
    w >= 2 && n % 2 == 1 && Abs(n) < Pow2(w - 1)
  }

  /** The index computed by the lookups is in range. */
  lemma IndexInTable(n: int, w: nat)
    requires InWindow(n, w)
    ensures 0 <= (Abs(n) - 1) / 2 < Pow2(w - 2) && 2 * ((Abs(n) - 1) / 2) + 1 == Abs(n)
  {
    assert Pow2(w - 1) == 2 * Pow2(w - 2);
  }

  /** ECMULT_TABLE_GET: the multiple that a digit stands for. */
  method TableGet<E(!new)>(g: Group<E>, pre: array<E>, ghost a: E, n: int, w: nat) returns (r: E)
    requires Lawful(g) && IsTable(g, pre[..], a, w) && InWindow(n, w)
    ensures r == Times(g, n, a)
  {
    IndexInTable(n, w);
    ghost var table := pre[..];
    if n > 0 {
      r := pre[(n - 1) / 2];
      assert r == table[(n - 1) / 2];
    } else {
      r := g.neg(pre[(-n - 1) / 2]);
      assert pre[(-n - 1) / 2] == table[(-n - 1) / 2] == Times(g, -n, a);
      TimesNeg(g, -n, a);
    }
  }

  /** The value of the digits from `i` on, the first of them weighing one. */
  function Tail(ds: seq<int>, i: nat): int
    decreases |ds| - i
  {
    if i >= |ds| then 0 else ds[i] + 2 * Tail(ds, i + 1)
  }

  lemma {:induction false} TailIsValue(ds: seq<int>, i: nat)
    requires i <= |ds|
    ensures Value(ds) == Value(ds[..i]) + Pow2(i) * Tail(ds, i)
    decreases |ds| - i
  {
    if i == |ds| {
      assert ds[..i] == ds;
    } else {
      TailIsValue(ds, i + 1);
      assert ds[..i + 1] == ds[..i] + [ds[i]];
      ValueAppend(ds[..i], ds[i]);
      MulDistributes(Pow2(i), ds[i], 2 * Tail(ds, i + 1));
      MulAssociates(Pow2(i), 2, Tail(ds, i + 1));
    }
  }

  lemma EncodedScalar<E(!new)>(g: Group<E>, ds: seq<int>, k: nat, p: E)
    requires OfOrderN(g) && k < N && Value(ds) == Signed(k)
    ensures Times(g, Tail(ds, 0), p) == Times(g, k, p)
  {
    TailIsValue(ds, 0);
    assert ds[..0] == [];
    FactorModuloN(g, Signed(k), k, p);
  }

  /** u * p + v * q */
  function Combined<E>(g: Group<E>, u: int, p: E, v: int, q: E): E {
    g.add(Times(g, u, p), Times(g, v, q))
  }

  /** Doubling a combination doubles both factors. */
  lemma DoublesBoth<E(!new)>(g: Group<E>, u: int, p: E, v: int, q: E)
    requires Lawful(g)
    ensures var r := Combined(g, u, p, v, q); g.add(r, r) == Combined(g, 2 * u, p, 2 * v, q)
  {
    Exchange(g, Times(g, u, p), Times(g, v, q), Times(g, u, p), Times(g, v, q));
    Doubles(g, u, p);
    Doubles(g, v, q);
  }

  lemma AddsLeft<E(!new)>(g: Group<E>, u: int, p: E, v: int, q: E, d: int)
    requires Lawful(g)
    ensures g.add(Combined(g, u, p, v, q), Times(g, d, p)) == Combined(g, u + d, p, v, q)
  {
    var a, b, c := Times(g, u, p), Times(g, v, q), Times(g, d, p);
    Commutes(g, b, c);
    Associates(g, a, b, c);
    Associates(g, a, c, b);
    TimesAdd(g, u, d, p);
  }

  lemma AddsRight<E(!new)>(g: Group<E>, u: int, p: E, v: int, q: E, d: int)
    requires Lawful(g)
    ensures g.add(Combined(g, u, p, v, q), Times(g, d, q)) == Combined(g, u, p, v + d, q)
  {
    Associates(g, Times(g, u, p), Times(g, v, q), Times(g, d, q));
    TimesAdd(g, v, d, q);
  }

  /** ecmult_context: the group with its generator, and the generator's table once it is built. */
  class Context<E(!new)> {
    const group: Group<E>
    const gen: E
    var preG: array?<E>

    ghost predicate Valid()
      reads this, preG
    {
      OfOrderN(group) && (preG != null ==> IsTable(group, preG[..], gen, WindowG))
    }

    constructor (group: Group<E>, gen: E)
      requires OfOrderN(group)
      ensures Valid() && this.group == group && this.gen == gen && preG == null
    {
      this.group, this.gen, preG := group, gen, null;
    }

    method Build()
      requires Valid()
      modifies this`preG
      ensures Valid() && preG != null && preG.Length == 16384
    {
      TableSizes();
      if preG == null { preG := OddMultiples(group, gen, WindowG); }
    }

    /** ecmult: na * a + ng * G. */
    method Multiply(a: E, na: nat, ng: nat) returns (r: E)
      requires Valid() && preG != null && na < N && ng < N
      ensures r == Combined(group, na, a, ng, gen)
    {
      var wnafA := new int[256];
      var bitsA := Wnaf.Wnaf(wnafA, na, WindowA);
      var preA := OddMultiples(group, a, WindowA);
      var wnafG := new int[257];
      var bitsG := Wnaf.Wnaf(wnafG, ng, WindowG);
      r := Interleave(a, wnafA[..bitsA], wnafG[..bitsG], preA);
      EncodedScalar(group, wnafA[..bitsA], na, a);
      EncodedScalar(group, wnafG[..bitsG], ng, gen);
    }

    /** The loop of ecmult over the two digit strings. */
    method Interleave(a: E, das: seq<int>, dgs: seq<int>, preA: array<E>) returns (r: E)
      requires Valid() && preG != null && IsTable(group, preA[..], a, WindowA)
      requires IsWnaf(das, WindowA) && IsWnaf(dgs, WindowG)
      ensures r == Combined(group, Tail(das, 0), a, Tail(dgs, 0), gen)
    {
      var bits := if |dgs| > |das| then |dgs| else |das|;
      r := group.zero;
      AddZero(group, group.zero);
      var i: nat := bits;
      while i > 0
        invariant i <= bits && r == Combined(group, Tail(das, i), a, Tail(dgs, i), gen)
      {
        i := i - 1;
        r := Round(r, a, das, dgs, i, preA);
      }
    }

    /** One round: doubles, and adds what each string of digits has at `i`. */
    method Round(r0: E, a: E, das: seq<int>, dgs: seq<int>, i: nat, preA: array<E>) returns (r: E)
      requires Valid() && preG != null && IsTable(group, preA[..], a, WindowA)
      requires IsWnaf(das, WindowA) && IsWnaf(dgs, WindowG) && (i < |das| || i < |dgs|)
      requires r0 == Combined(group, Tail(das, i + 1), a, Tail(dgs, i + 1), gen)
      ensures r == Combined(group, Tail(das, i), a, Tail(dgs, i), gen)
    {
      hide Times, Tail, OddOnes, Pow2;
      ghost var u, v := 2 * Tail(das, i + 1), 2 * Tail(dgs, i + 1);
      DoublesBoth(group, Tail(das, i + 1), a, Tail(dgs, i + 1), gen);
      r := group.add(r0, r0);
      if i < |das| && das[i] != 0 {
        var t := TableGet(group, preA, a, das[i], WindowA);
        AddsLeft(group, u, a, v, gen, das[i]);
        r := group.add(r, t);
      }
      TailAt(das, i);
      if i < |dgs| && dgs[i] != 0 {
        var t := TableGet(group, preG, gen, dgs[i], WindowG);
        AddsRight(group, Tail(das, i), a, v, gen, dgs[i]);
        r := group.add(r, t);
      }
      TailAt(dgs, i);
    }
  }

  lemma TailAt(ds: seq<int>, i: nat)
    ensures Tail(ds, i) == 2 * Tail(ds, i + 1) + if i < |ds| then ds[i] else 0
  {
  }
}
