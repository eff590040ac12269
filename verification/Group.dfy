/** A commutative group written additively, and multiples of its elements. */
module Group {

  datatype Group<!E> = Group(zero: E, add: (E, E) -> E, neg: E -> E)

  /** Names the elements for which a law is wanted, so that no law is used unasked. */
  ghost predicate At<E>(a: E, b: E, c: E) { true }

  ghost predicate Lawful<E(!new)>(g: Group<E>) {
    && (forall a: E, b: E, c: E {:trigger At(a, b, c)} :: g.add(g.add(a, b), c) == g.add(a, g.add(b, c)))
    && (forall a: E, b: E, c: E {:trigger At(a, b, c)} :: g.add(a, b) == g.add(b, a))
    && (forall a: E, b: E, c: E {:trigger At(a, b, c)} :: g.add(a, g.zero) == a)
    && (forall a: E, b: E, c: E {:trigger At(a, b, c)} :: g.add(a, g.neg(a)) == g.zero)
  }

  lemma Associates<E(!new)>(g: Group<E>, a: E, b: E, c: E)
    requires Lawful(g)
    ensures g.add(g.add(a, b), c) == g.add(a, g.add(b, c))
  {
    assert At(a, b, c);
  }

  lemma Commutes<E(!new)>(g: Group<E>, a: E, b: E)
    requires Lawful(g)
    ensures g.add(a, b) == g.add(b, a)
  {
    assert At(a, b, b);
  }

  lemma AddZero<E(!new)>(g: Group<E>, a: E)
    requires Lawful(g)
    ensures g.add(a, g.zero) == a == g.add(g.zero, a)
  {
    assert At(a, g.zero, a);
  }

  lemma AddNeg<E(!new)>(g: Group<E>, a: E)
    requires Lawful(g)
    ensures g.add(a, g.neg(a)) == g.zero == g.add(g.neg(a), a)
  {
    assert At(a, g.neg(a), a);
  }

  /** (a + b) + (c + d) == (a + c) + (b + d) */
  lemma Exchange<E(!new)>(g: Group<E>, a: E, b: E, c: E, d: E)
    requires Lawful(g)
    ensures g.add(g.add(a, b), g.add(c, d)) == g.add(g.add(a, c), g.add(b, d))
  {
    Associates(g, a, b, g.add(c, d));
    Associates(g, b, c, d);
    Commutes(g, b, c);
    Associates(g, c, b, d);
    Associates(g, a, c, g.add(b, d));
  }

  lemma NegIsUnique<E(!new)>(g: Group<E>, a: E, b: E)
    requires Lawful(g) && g.add(a, b) == g.zero
    ensures b == g.neg(a)
  {
    Associates(g, g.neg(a), a, b);
    AddNeg(g, a);
    AddZero(g, b);
    AddZero(g, g.neg(a));
  }

  lemma NegOfSum<E(!new)>(g: Group<E>, a: E, b: E)
    requires Lawful(g)
    ensures g.neg(g.add(a, b)) == g.add(g.neg(a), g.neg(b))
  {
    Exchange(g, a, b, g.neg(a), g.neg(b));
    AddNeg(g, a);
    AddNeg(g, b);
    AddZero(g, g.zero);
    NegIsUnique(g, g.add(a, b), g.add(g.neg(a), g.neg(b)));
  }

  lemma NegOfNeg<E(!new)>(g: Group<E>, a: E)
    requires Lawful(g)
    ensures g.neg(g.neg(a)) == a && g.neg(g.zero) == g.zero
  {
    AddNeg(g, a);
    NegIsUnique(g, g.neg(a), a);
    AddZero(g, g.zero);
    NegIsUnique(g, g.zero, g.zero);
  }

  /** (a + b) - b == a */
  lemma AddThenTake<E(!new)>(g: Group<E>, a: E, b: E)
    requires Lawful(g)
    ensures g.add(g.add(a, b), g.neg(b)) == a == g.add(g.add(a, g.neg(b)), b)
  {
    Associates(g, a, b, g.neg(b));
    Associates(g, a, g.neg(b), b);
    AddNeg(g, b);
    AddZero(g, a);
  }

  // ---------------------------------------------------------------- multiples

  function Sum<E>(g: Group<E>, k: nat, p: E): E {
    if k == 0 then g.zero else g.add(Sum(g, k - 1, p), p)
  }

  /** k * p, for any integer k. */
  function Times<E>(g: Group<E>, k: int, p: E): E {
    if k >= 0 then Sum(g, k, p) else g.neg(Sum(g, -k, p))
  }

  lemma TimesSmall<E(!new)>(g: Group<E>, p: E)
    requires Lawful(g)
    ensures Times(g, 0, p) == g.zero && Times(g, 1, p) == p && Times(g, -1, p) == g.neg(p)
  {
    AddZero(g, p);
    assert Sum(g, 1, p) == g.add(Sum(g, 0, p), p);
  }

  lemma TimesNext<E(!new)>(g: Group<E>, k: int, p: E)
    requires Lawful(g)
    ensures Times(g, k + 1, p) == g.add(Times(g, k, p), p)
  {
    if k < 0 {
      var rest := Sum(g, -k - 1, p);
      assert Sum(g, -k, p) == g.add(rest, p);
      NegOfSum(g, rest, p);
      AddThenTake(g, g.neg(rest), p);
      NegOfNeg(g, p);
    }
  }

  lemma {:induction false} TimesAdd<E(!new)>(g: Group<E>, a: int, b: int, p: E)
    requires Lawful(g)
    ensures Times(g, a + b, p) == g.add(Times(g, a, p), Times(g, b, p))
    decreases if b >= 0 then b else -b
  {
    if b == 0 {
      AddZero(g, Times(g, a, p));
    } else if b > 0 {
      TimesAdd(g, a, b - 1, p);
      TimesNext(g, a + b - 1, p);
      TimesNext(g, b - 1, p);
      Associates(g, Times(g, a, p), Times(g, b - 1, p), p);
    } else {
      TimesAdd(g, a, b + 1, p);
      TimesNext(g, a + b, p);
      TimesNext(g, b, p);
      Associates(g, Times(g, a, p), Times(g, b, p), p);
      AddThenTake(g, Times(g, a + b, p), p);
      AddThenTake(g, g.add(Times(g, a, p), Times(g, b, p)), p);
    }
  }

  lemma TimesNeg<E(!new)>(g: Group<E>, k: int, p: E)
    requires Lawful(g)
    ensures Times(g, -k, p) == g.neg(Times(g, k, p))
  {
    TimesAdd(g, k, -k, p);
    assert Times(g, 0, p) == g.zero;
    NegIsUnique(g, Times(g, k, p), Times(g, -k, p));
  }

  lemma {:induction false} TimesOfTimes<E(!new)>(g: Group<E>, a: int, b: int, p: E)
    requires Lawful(g)
    ensures Times(g, a, Times(g, b, p)) == Times(g, a * b, p)
    decreases a < 0, a
  {
    if a == 0 {
      assert a * b == 0;
    } else if a > 0 {
      TimesOfTimes(g, a - 1, b, p);
      TimesNext(g, a - 1, Times(g, b, p));
      assert (a - 1) * b + b == a * b;
      TimesAdd(g, (a - 1) * b, b, p);
    } else {
      TimesOfTimes(g, -a, b, p);
      TimesNeg(g, -a, Times(g, b, p));
      assert -((-a) * b) == a * b;
      TimesNeg(g, (-a) * b, p);
    }
  }

  lemma {:induction false} TimesOfSum<E(!new)>(g: Group<E>, k: int, p: E, q: E)
    requires Lawful(g)
    ensures Times(g, k, g.add(p, q)) == g.add(Times(g, k, p), Times(g, k, q))
    decreases k < 0, k
  {
    if k == 0 {
      AddZero(g, g.zero);
    } else if k > 0 {
      TimesOfSum(g, k - 1, p, q);
      TimesNext(g, k - 1, g.add(p, q));
      TimesNext(g, k - 1, p);
      TimesNext(g, k - 1, q);
      Exchange(g, Times(g, k - 1, p), Times(g, k - 1, q), p, q);
    } else {
      TimesOfSum(g, -k, p, q);
      TimesNeg(g, -k, g.add(p, q));
      TimesNeg(g, -k, p);
      TimesNeg(g, -k, q);
      NegOfSum(g, Times(g, -k, p), Times(g, -k, q));
    }
  }

  lemma TimesOfNeg<E(!new)>(g: Group<E>, k: int, p: E)
    requires Lawful(g)
    ensures Times(g, k, g.neg(p)) == g.neg(Times(g, k, p)) == Times(g, -k, p)
  {
    TimesSmall(g, p);
    TimesOfTimes(g, k, -1, p);
    TimesNeg(g, k, p);
    assert k * -1 == -k;
  }

  lemma TimesOfZero<E(!new)>(g: Group<E>, k: int)
    requires Lawful(g)
    ensures Times(g, k, g.zero) == g.zero
  {
    assert Times(g, 0, g.zero) == g.zero;
    TimesOfTimes(g, k, 0, g.zero);
    assert k * 0 == 0;
  }

  lemma Doubles<E(!new)>(g: Group<E>, k: int, p: E)
    requires Lawful(g)
    ensures g.add(Times(g, k, p), Times(g, k, p)) == Times(g, 2 * k, p)
  {
    TimesAdd(g, k, k, p);
  }

  /** Multiples of an element of order `n` depend on the factor modulo `n` only. */
  lemma TimesModulo<E(!new)>(g: Group<E>, n: nat, a: int, b: int, p: E)
    requires Lawful(g) && n > 0 && Times(g, n, p) == g.zero && (a - b) % n == 0
    ensures Times(g, a, p) == Times(g, b, p)
  {
    var q := (a - b) / n;
    assert a == b + q * n;
    TimesAdd(g, b, q * n, p);
    TimesOfTimes(g, q, n, p);
    TimesOfZero(g, q);
    AddZero(g, Times(g, b, p));
  }
}
