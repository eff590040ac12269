/**
  What the signature code asks of the curve secp256k1: a group of prime order, the coordinate and
  the parity by which points are told apart, and inverses modulo the order.
 */
module Curve {
  import opened Bytes
  import opened Ecmult
  import opened Group
  import opened Scalar

  /**
    `x` and `odd` are the first coordinate and the parity of the second, `lift` is ge_set_xo and
    `inverse` scalar_inverse.
   */
  datatype Curve<!E> = Curve(group: Group<E>, g: E, x: E -> nat, odd: E -> bool, lift: (nat, bool) -> Option<E>,
                             inverse: nat -> nat)

  ghost predicate PointLaws<E>(c: Curve<E>, p: E) {
    p != c.group.zero ==>
      && c.x(p) < P && c.lift(c.x(p), c.odd(p)) == Some(p)
      && c.group.neg(p) != c.group.zero && c.x(c.group.neg(p)) == c.x(p) && c.odd(c.group.neg(p)) == !c.odd(p)
  }

  ghost predicate LiftLaws<E>(c: Curve<E>, v: nat, odd: bool) {
    var p := c.lift(v, odd);
    p.Some? ==> p.value != c.group.zero && c.x(p.value) == v && c.odd(p.value) == odd
  }

  ghost predicate InverseLaws<E>(c: Curve<E>, a: nat) {
    0 < a < N ==> 0 < c.inverse(a) < N && (c.inverse(a) * a) % N == 1
  }

  ghost predicate CurveLaws<E(!new)>(c: Curve<E>) {
    && OfOrderN(c.group) && c.g != c.group.zero
    && (forall p: E :: PointLaws(c, p))
    && (forall v: nat, odd: bool :: LiftLaws(c, v, odd))
    && (forall a: nat :: InverseLaws(c, a))
  }

  /** scalar_mul and scalar_add */
  function Product(a: nat, b: nat): nat { (a * b) % N }

  function Total(a: nat, b: nat): nat { (a + b) % N }

  lemma TimesProduct<E(!new)>(c: Curve<E>, a: nat, b: nat, p: E)
    requires CurveLaws(c)
    ensures Times(c.group, Product(a, b), p) == Times(c.group, a, Times(c.group, b, p))
  {
    FactorModuloN(c.group, Product(a, b), a * b, p);
    TimesOfTimes(c.group, a, b, p);
  }

  lemma TimesTotal<E(!new)>(c: Curve<E>, a: nat, b: nat, p: E)
    requires CurveLaws(c)
    ensures Times(c.group, Total(a, b), p) == c.group.add(Times(c.group, a, p), Times(c.group, b, p))
  {
    FactorModuloN(c.group, Total(a, b), a + b, p);
    TimesAdd(c.group, a, b, p);
  }

  lemma TimesNegate<E(!new)>(c: Curve<E>, a: nat, p: E)
    requires CurveLaws(c) && a < N
    ensures Times(c.group, Negate(a), p) == c.group.neg(Times(c.group, a, p)) == Times(c.group, a, c.group.neg(p))
  {
    FactorModuloN(c.group, Negate(a), 0 - a, p);
    TimesNeg(c.group, a, p);
    TimesOfNeg(c.group, a, p);
  }

  /** Multiplying by an invertible number and by its inverse undo each other. */
  lemma TimesInverse<E(!new)>(c: Curve<E>, a: nat, p: E)
    requires CurveLaws(c) && 0 < a < N
    ensures Times(c.group, c.inverse(a), Times(c.group, a, p)) == p
    ensures Times(c.group, a, Times(c.group, c.inverse(a), p)) == p
  {
    assert InverseLaws(c, a);
    var i := c.inverse(a);
    TimesOfTimes(c.group, i, a, p);
    TimesOfTimes(c.group, a, i, p);
    assert a * i == i * a;
    FactorModuloN(c.group, i * a, 1, p);
    TimesSmall(c.group, p);
  }

  /** Only multiples of the order take a point to nothing. */
  lemma NotZero<E(!new)>(c: Curve<E>, a: nat, p: E)
    requires CurveLaws(c) && 0 < a < N && p != c.group.zero
    ensures Times(c.group, a, p) != c.group.zero
  {
    TimesInverse(c, a, p);
    TimesOfZero(c.group, c.inverse(a));
  }

  /** A point other than zero is told by its coordinate and its parity. */
  lemma LiftFinds<E(!new)>(c: Curve<E>, v: nat, odd: bool, p: E)
    requires CurveLaws(c)
    ensures c.lift(v, odd) == Some(p) <==> p != c.group.zero && c.x(p) == v && c.odd(p) == odd
  {
    assert PointLaws(c, p) && LiftLaws(c, v, odd);
  }
}
