/**
  ethminer/secp256k1/ecdsa_impl.h: signing, verifying and recovering the key, after SEC 1 sections
  4.1.3, 4.1.4 and 4.1.6.
 */
module Ecdsa {
  import opened Bytes
  import opened Curve
  import Ecmult
  import EcmultGen
  import opened Group
  import opened Scalar

  // ---------------------------------------------------------------- what a signature is

  /** s * R == m * G + r * Q, which ties together everything that signatures are about. */
  ghost predicate Equation<E>(c: Curve<E>, q: E, m: nat, r: nat, s: nat, point: E) {
    Times(c.group, s, point) == c.group.add(Times(c.group, m, c.g), Times(c.group, r, q))
  }

  /** The first coordinate reduces to `r`. */
  ghost predicate ReducesTo<E>(c: Curve<E>, point: E, r: nat) {
    point != c.group.zero && c.x(point) % N == r
  }

  /** The signature (r, s) of `m` is one under the key `q`. */
  ghost predicate Verifies<E(!new)>(c: Curve<E>, q: E, m: nat, r: nat, s: nat) {
    0 < r < N && 0 < s < N && exists point: E :: Equation(c, q, m, r, s, point) && ReducesTo(c, point, r)
  }

  /** The point that a signature was made with, as its recovery number describes it. */
  function SignedPoint<E>(c: Curve<E>, r: nat, recid: nat): Option<E> {
    var x := if (recid / 2) % 2 == 1 then r + N else r;
    if x < P then c.lift(x, recid % 2 == 1) else None
  }

  /** Recovery with the number `recid` gives the key `q`. */
  ghost predicate Recovers<E>(c: Curve<E>, m: nat, r: nat, s: nat, recid: nat, q: E) {
    && 0 < r < N && 0 < s < N && q != c.group.zero
    && SignedPoint(c, r, recid).Some? && Equation(c, q, m, r, s, SignedPoint(c, r, recid).value)
  }

  /** For any one key the equation has one solution, s^-1 * m * G + s^-1 * r * Q. */
  lemma PointIsUnique<E(!new)>(c: Curve<E>, q: E, m: nat, r: nat, s: nat, point: E)
    requires CurveLaws(c) && 0 < s < N
    ensures var i := c.inverse(s);
      Equation(c, q, m, r, s, point) <==> point == Ecmult.Combined(c.group, Product(i, r), q, Product(i, m), c.g)
  {
    var g := c.group;
    var i := c.inverse(s);
    var mG, rQ := Times(g, m, c.g), Times(g, r, q);
    TimesProduct(c, i, r, q);
    TimesProduct(c, i, m, c.g);
    TimesOfSum(g, i, mG, rQ);
    Commutes(g, Times(g, i, mG), Times(g, i, rQ));
    TimesInverse(c, s, point);
    TimesInverse(c, s, g.add(mG, rQ));
  }

  /** For any one point there is one key, r^-1 * s * R - r^-1 * m * G. */
  lemma KeyIsUnique<E(!new)>(c: Curve<E>, q: E, m: nat, r: nat, s: nat, point: E)
    requires CurveLaws(c) && 0 < r < N
    ensures var i := c.inverse(r);
      Equation(c, q, m, r, s, point)
      <==> q == Ecmult.Combined(c.group, Product(i, s), point, Negate(Product(i, m)), c.g)
  {
    var g := c.group;
    var i := c.inverse(r);
    var mG, rQ, sR := Times(g, m, c.g), Times(g, r, q), Times(g, s, point);
    TimesProduct(c, i, s, point);
    TimesProduct(c, i, m, c.g);
    TimesNegate(c, Product(i, m), c.g);
    TimesOfNeg(g, i, mG);
    TimesOfSum(g, i, sR, g.neg(mG));
    TimesInverse(c, r, q);
    TimesInverse(c, r, g.add(sR, g.neg(mG)));
    Moved(g, sR, mG, rQ);
  }

  /** a == b + c exactly when c == a - b. */
  lemma Moved<E(!new)>(g: Group<E>, a: E, b: E, c: E)
    requires Lawful(g)
    ensures a == g.add(b, c) <==> c == g.add(a, g.neg(b))
  {
    Commutes(g, b, c);
    AddThenTake(g, c, b);
    AddThenTake(g, a, b);
  }

  /** The negated signature goes with the negated point. */
  lemma NegatedSignature<E(!new)>(c: Curve<E>, q: E, m: nat, r: nat, s: nat, point: E)
    requires CurveLaws(c) && s < N && Equation(c, q, m, r, s, point)
    ensures Equation(c, q, m, r, Negate(s), c.group.neg(point))
  {
    TimesNegate(c, s, c.group.neg(point));
    NegOfNeg(c.group, point);
  }

  // ---------------------------------------------------------------- verifying

  /** A coordinate reduces to `r` in one of two cases, the second only for small `r`. */
  lemma TwoCases(x: nat, r: nat)
    requires x < P && r < N
    ensures x % N == r <==> x == r || (r < PMinusOrder && x == r + N)
  {
  }

  /** sig_verify, which compares coordinates without reducing the one it has computed. */
  method SigVerify<E(==,!new)>(c: Curve<E>, ctx: Ecmult.Context<E>, r: nat, s: nat, pubkey: E, message: nat)
    returns (ok: bool)
    requires CurveLaws(c) && ctx.Valid() && ctx.preG != null && ctx.group == c.group && ctx.gen == c.g
    requires r < N && s < N && message < N
    ensures ok <==> Verifies(c, pubkey, message, r, s)
  {
    if r == 0 || s == 0 { return false; }
    assert InverseLaws(c, s);
    var sn := c.inverse(s);
    var u1 := Product(sn, message);
    var u2 := Product(sn, r);
    var pr := ctx.Multiply(pubkey, u2, u1);
    PointIsUnique(c, pubkey, message, r, s, pr);
    forall point: E | Equation(c, pubkey, message, r, s, point) ensures point == pr {
      PointIsUnique(c, pubkey, message, r, s, point);
    }
    if pr == c.group.zero { return false; }
    assert PointLaws(c, pr);
    TwoCases(c.x(pr), r);
    var xr := r;
    if xr == c.x(pr) { return true; }
    if xr >= PMinusOrder { return false; }
    xr := (xr + N) % P;
    ok := xr == c.x(pr);
  }

  // ---------------------------------------------------------------- recovering

  /** sig_recover */
  method SigRecover<E(==,!new)>(c: Curve<E>, ctx: Ecmult.Context<E>, r: nat, s: nat, message: nat, recid: nat)
    returns (pubkey: Option<E>)
    requires CurveLaws(c) && ctx.Valid() && ctx.preG != null && ctx.group == c.group && ctx.gen == c.g
    requires r < N && s < N && message < N && recid < 4
    ensures forall q: E :: pubkey == Some(q) <==> Recovers(c, message, r, s, recid, q)
  {
    if r == 0 || s == 0 { return None; }
    var fx := r;
    if (recid / 2) % 2 == 1 {
      if fx >= PMinusOrder { return None; }
      fx := (fx + N) % P;
    }
    var x := c.lift(fx, recid % 2 == 1);
    assert x == SignedPoint(c, r, recid);
    if x.None? { return None; }
    assert InverseLaws(c, r);
    var rn := c.inverse(r);
    var u1 := Negate(Product(rn, message));
    var u2 := Product(rn, s);
    var qj := ctx.Multiply(x.value, u2, u1);
    forall q: E ensures Equation(c, q, message, r, s, x.value) <==> q == qj {
      KeyIsUnique(c, q, message, r, s, x.value);
    }
    pubkey := if qj == c.group.zero then None else Some(qj);
  }

  /** The recovery number that describes a point. */
  function RecidOf<E>(c: Curve<E>, point: E): nat {
    (if c.x(point) >= N then 2 else 0) + (if c.odd(point) then 1 else 0)
  }

  lemma RecidFinds<E(!new)>(c: Curve<E>, point: E, r: nat)
    requires CurveLaws(c) && ReducesTo(c, point, r)
    ensures RecidOf(c, point) < 4 && SignedPoint(c, r, RecidOf(c, point)) == Some(point)
  {
    assert PointLaws(c, point);
    TwoCases(c.x(point), r);
    LiftFinds(c, c.x(point), c.odd(point), point);
  }

  lemma FoundReduces<E(!new)>(c: Curve<E>, recid: nat, r: nat)
    requires CurveLaws(c) && r < N && SignedPoint(c, r, recid).Some?
    ensures ReducesTo(c, SignedPoint(c, r, recid).value, r)
  {
    var x := if (recid / 2) % 2 == 1 then r + N else r;
    assert LiftLaws(c, x, recid % 2 == 1);
    TwoCases(x, r);
  }

  /** Verification accepts exactly the keys that recovery gives with one of the four numbers. */
  lemma VerifiesIffRecovers<E(!new)>(c: Curve<E>, q: E, m: nat, r: nat, s: nat)
    requires CurveLaws(c) && q != c.group.zero
    ensures Verifies(c, q, m, r, s) <==> exists recid: nat :: recid < 4 && Recovers(c, m, r, s, recid, q)
  {
    if Verifies(c, q, m, r, s) {
      var point: E :| Equation(c, q, m, r, s, point) && ReducesTo(c, point, r);
      RecidFinds(c, point, r);
      assert Recovers(c, m, r, s, RecidOf(c, point), q);
    }
    if recid: nat :| recid < 4 && Recovers(c, m, r, s, recid, q) {
      FoundReduces(c, recid, r);
    }
  }

  /** No recovery number stands for two keys. */
  lemma RecoveryIsUnique<E(!new)>(c: Curve<E>, m: nat, r: nat, s: nat, recid: nat, q: E, q': E)
    requires CurveLaws(c) && Recovers(c, m, r, s, recid, q) && Recovers(c, m, r, s, recid, q')
    ensures q == q'
  {
    var point := SignedPoint(c, r, recid).value;
    KeyIsUnique(c, q, m, r, s, point);
    KeyIsUnique(c, q', m, r, s, point);
  }

  // ---------------------------------------------------------------- signing

  /** The nonce spoils the signature: one of its parts comes out as zero. */
  ghost predicate Spoils<E>(c: Curve<E>, seckey: nat, message: nat, nonce: nat) {
    var r := c.x(Times(c.group, nonce, c.g)) % N;
    r == 0 || Total(Product(r, seckey), message) == 0
  }

  /** The signature is made with this nonce: the point it describes is the nonce's, or its negative. */
  ghost predicate MadeWith<E>(c: Curve<E>, r: nat, recid: nat, nonce: nat) {
    var point := Times(c.group, nonce, c.g);
    && r == c.x(point) % N
    && (SignedPoint(c, r, recid) == Some(point) || SignedPoint(c, r, recid) == Some(c.group.neg(point)))
  }

  /** Multiples of a point other than zero by different numbers below the order are different. */
  lemma Cancels<E(!new)>(c: Curve<E>, a: nat, b: nat, p: E)
    requires CurveLaws(c) && a <= b < N && p != c.group.zero && Times(c.group, a, p) == Times(c.group, b, p)
    ensures a == b
  {
    var g := c.group;
    TimesAdd(g, b - a, a, p);
    var d := Times(g, b - a, p);
    AddThenTake(g, d, Times(g, a, p));
    AddNeg(g, Times(g, a, p));
    if b > a { NotZero(c, b - a, p); }
  }

  /** Secret, message and nonce leave room for one signature only. */
  lemma SignatureIsUnique<E(!new)>(c: Curve<E>, q: E, m: nat, nonce: nat, r: nat, s: nat, recid: nat, r': nat, s': nat, recid': nat)
    requires CurveLaws(c) && 0 < nonce < N
    requires recid < 4 && Recovers(c, m, r, s, recid, q) && !IsHigh(s) && MadeWith(c, r, recid, nonce)
    requires recid' < 4 && Recovers(c, m, r', s', recid', q) && !IsHigh(s') && MadeWith(c, r', recid', nonce)
    ensures r == r' && s == s' && recid == recid'
  {
    var point, point' := SignedPoint(c, r, recid).value, SignedPoint(c, r, recid').value;
    NotZero(c, nonce, c.g);
    assert PointLaws(c, Times(c.group, nonce, c.g));
    if point == point' {
      Cancels(c, if s <= s' then s else s', if s <= s' then s' else s, point);
      RecidIsUnique(c, r, recid, recid');
    } else {
      NegOfNeg(c.group, Times(c.group, nonce, c.g));
      assert point' == c.group.neg(point);
      TimesNegate(c, s', point);
      var t := Negate(s');
      Cancels(c, if s <= t then s else t, if s <= t then t else s, point);
    }
  }

  lemma RecidIsUnique<E(!new)>(c: Curve<E>, r: nat, recid: nat, recid': nat)
    requires CurveLaws(c) && r < N && recid < 4 && recid' < 4
    requires SignedPoint(c, r, recid).Some? && SignedPoint(c, r, recid) == SignedPoint(c, r, recid')
    ensures recid == recid'
  {
    var x := if (recid / 2) % 2 == 1 then r + N else r;
    var x' := if (recid' / 2) % 2 == 1 then r + N else r;
    assert LiftLaws(c, x, recid % 2 == 1) && LiftLaws(c, x', recid' % 2 == 1);
  }

  /** sig_sign; the nonce is a number that the caller has found neither zero nor too large. */
  method SigSign<E(!new)>(c: Curve<E>, ctx: EcmultGen.Context<E>, seckey: nat, message: nat, nonce: nat)
    returns (ok: bool, r: nat, s: nat, recid: nat)
    requires CurveLaws(c) && ctx.Built() && ctx.Blinded() && ctx.group == c.group && ctx.gen == c.g
    requires 0 < seckey < N && message < N && 0 < nonce < N
    ensures ok <==> !Spoils(c, seckey, message, nonce)
    ensures ok ==> r < N && !IsHigh(s) && recid < 4 && Recovers(c, message, r, s, recid, Times(c.group, seckey, c.g))
    ensures ok ==> MadeWith(c, r, recid, nonce)
  {
    s, recid := 0, 0;
    var rp := ctx.Multiply(nonce);
    NotZero(c, nonce, c.g);
    assert PointLaws(c, rp);
    var overflow := c.x(rp) >= N;
    r := c.x(rp) % N;
    if r == 0 { return false, r, s, recid; }
    recid := (if overflow then 2 else 0) + (if c.odd(rp) then 1 else 0);
    var n := Total(Product(r, seckey), message);
    assert InverseLaws(c, nonce);
    s := Product(c.inverse(nonce), n);
    SignatureHolds(c, seckey, message, nonce, r, n, s);
    if s == 0 { return false, r, s, recid; }
    ghost var q := Times(c.group, seckey, c.g);
    NotZero(c, seckey, c.g);
    RecidFinds(c, rp, r);
    if IsHigh(s) {
      NegatedSignature(c, q, message, r, s, rp);
      s := Negate(s);
      recid := if recid % 2 == 1 then recid - 1 else recid + 1;
      RecidFinds(c, c.group.neg(rp), r);
    }
    ok := true;
  }

  /** s == nonce^-1 * (r * seckey + message) solves the equation, and is zero only with the bracket. */
  lemma SignatureHolds<E(!new)>(c: Curve<E>, seckey: nat, message: nat, nonce: nat, r: nat, n: nat, s: nat)
    requires CurveLaws(c) && 0 < nonce < N
    requires n == Total(Product(r, seckey), message) && s == Product(c.inverse(nonce), n)
    ensures Equation(c, Times(c.group, seckey, c.g), message, r, s, Times(c.group, nonce, c.g))
    ensures s == 0 <==> n == 0
  {
    var g := c.group;
    var i := c.inverse(nonce);
    var kG := Times(g, nonce, c.g);
    TimesProduct(c, i, n, kG);
    Swap(g, i, n, kG);
    TimesInverse(c, nonce, c.g);
    TimesTotal(c, Product(r, seckey), message, c.g);
    TimesProduct(c, r, seckey, c.g);
    Commutes(g, Times(g, r, Times(g, seckey, c.g)), Times(g, message, c.g));
    if s == 0 && n != 0 { NotZero(c, n, c.g); }
    assert n == 0 ==> i * n == 0;
  }

  lemma Swap<E(!new)>(g: Group<E>, a: int, b: int, p: E)
    requires Lawful(g)
    ensures Times(g, a, Times(g, b, p)) == Times(g, b, Times(g, a, p))
  {
    TimesOfTimes(g, a, b, p);
    TimesOfTimes(g, b, a, p);
    assert a * b == b * a;
  }

  /** Whoever signs with a nonce that does not spoil it, the signature verifies under the key. */
  lemma SignedVerifies<E(!new)>(c: Curve<E>, m: nat, r: nat, s: nat, recid: nat, q: E)
    requires CurveLaws(c) && recid < 4 && Recovers(c, m, r, s, recid, q)
    ensures Verifies(c, q, m, r, s)
  {
    VerifiesIffRecovers(c, q, m, r, s);
  }
}
