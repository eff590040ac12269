/**
  ethminer/secp256k1.c, ecdsa_sign_compact and ecdsa_recover_compact: signatures as 64 bytes.
 */
module Compact {
  import opened Arithmetic
  import opened BigEndian
  import opened Bytes
  import opened Curve
  import opened Ecdsa
  import Ecmult
  import EcmultGen
  import opened Group
  import opened Scalar

  /** scalar_set_b32: the number less the order, if it is not below, and whether that was so. */
  function SetB32(b: Bytes): (r: (nat, bool))
    requires |b| == 32
    ensures r.0 < N && r.0 == Value(b) % N && (r.1 <==> Value(b) >= N)
  {
    var v := Value(b);
    Below2N(b);
    if v >= N then (v - N, true) else (v, false)
  }

  lemma {:induction false} Pow256IsPow2(k: nat)
    ensures Pow256(k) == Pow2(8 * k)
  {
    if k > 0 {
      Pow256IsPow2(k - 1);
      Pow2Adds(8, 8 * (k - 1));
      assert Pow2(8) == 256;
    }
  }

  lemma RangeOf32Bytes()
    ensures Pow256(32) == 2 * Two255
  {
    Pow256IsPow2(32);
    Pow2Of255();
  }

  lemma Below2N(b: Bytes)
    requires |b| == 32
    ensures Value(b) < 2 * N && Value(b) % N == if Value(b) >= N then Value(b) - N else Value(b)
  {
    RangeOf32Bytes();
    ValueBelow(b);
  }

  /** A scalar survives being written as 32 bytes. */
  lemma ScalarRoundTrip(a: nat)
    requires a < N
    ensures Value(Fixed(a, 32)) == a
  {
    FixedHoldsValue(a, 32);
    RangeOf32Bytes();
    DivUnique(a, Pow256(32), 0, a);
  }

  function Zeros64(): (b: Bytes)
    ensures |b| == 64 && forall i | 0 <= i < 64 :: b[i] == 0
  {
    seq(64, _ => 0)
  }

  /** A nonce that the loop passes over. */
  ghost predicate Unfit<E>(c: Curve<E>, seckey: nat, message: nat, nonce32: Bytes)
    requires |nonce32| == 32
  {
    var (non, overflow) := SetB32(nonce32);
    non == 0 || overflow || Spoils(c, seckey, message, non)
  }

  /** One of the nonces is fit to sign with. */
  ghost predicate SomeFit<E>(c: Curve<E>, seckey: nat, message: nat, nonces: seq<Bytes>)
    requires forall i | 0 <= i < |nonces| :: |nonces[i]| == 32
  {
    exists i :: 0 <= i < |nonces| && !Unfit(c, seckey, message, nonces[i])
  }

  /** The first nonce that is fit is number `j`, and the signature is made with it. */
  ghost predicate FromFirstFit<E>(c: Curve<E>, seckey: nat, message: nat, nonces: seq<Bytes>, j: nat, sig64: Bytes, recid: nat)
    requires forall i | 0 <= i < |nonces| :: |nonces[i]| == 32
  {
    && j < |nonces| && !Unfit(c, seckey, message, nonces[j])
    && (forall i | 0 <= i < j :: Unfit(c, seckey, message, nonces[i]))
    && |sig64| == 64 && MadeWith(c, Value(sig64[..32]), recid, Value(nonces[j]))
  }

  /**
    ecdsa_sign_compact. `nonces` is what the nonce function answers to the counts 0, 1, 2 and so on
    until it refuses; the loop ends there or with a nonce that is fit.
   */
  method SignCompact<E(!new)>(c: Curve<E>, ctx: EcmultGen.Context<E>, msg32: Bytes, seckey: Bytes, nonces: seq<Bytes>)
    returns (ret: bool, sig64: Bytes, recid: nat)
    requires CurveLaws(c) && ctx.Built() && ctx.Blinded() && ctx.group == c.group && ctx.gen == c.g
    requires |msg32| == |seckey| == 32 && forall i | 0 <= i < |nonces| :: |nonces[i]| == 32
    ensures ret <==> 0 < Value(seckey) < N && SomeFit(c, Value(seckey), Value(msg32) % N, nonces)
    ensures ret ==> recid < 4 && IsSignature(c, sig64, recid, Value(msg32) % N, Times(c.group, Value(seckey), c.g))
    ensures ret ==> exists j :: FromFirstFit(c, Value(seckey), Value(msg32) % N, nonces, j, sig64, recid)
    ensures !ret ==> |sig64| == 64 && forall i | 0 <= i < 64 :: sig64[i] == 0
  {
    hide CurveLaws, IsSignature, Times, Value, MadeWith, Unfit;
    ret, sig64, recid := false, Zeros64(), 0;
    var (sec, overflow) := SetB32(seckey);
    Below2N(seckey);
    if !overflow && sec != 0 {
      var (msg, _) := SetB32(msg32);
      var count: nat := 0;
      while count < |nonces| && !ret
        invariant count <= |nonces| && (!ret ==> sig64 == Zeros64())
        invariant !ret ==> forall i | 0 <= i < count :: Unfit(c, sec, msg, nonces[i])
        invariant ret ==> recid < 4 && SomeFit(c, sec, msg, nonces) && IsSignature(c, sig64, recid, msg, Times(c.group, sec, c.g))
        invariant ret ==> FromFirstFit(c, sec, msg, nonces, count, sig64, recid)
        decreases |nonces| - count, !ret
      {
        ret, sig64, recid := TryNonce(c, ctx, sec, msg, nonces[count]);
        if !ret { count := count + 1; }
      }
    }
  }

  /** The body of the loop. */
  method TryNonce<E(!new)>(c: Curve<E>, ctx: EcmultGen.Context<E>, sec: nat, msg: nat, nonce32: Bytes)
    returns (ret: bool, sig64: Bytes, recid: nat)
    requires CurveLaws(c) && ctx.Built() && ctx.Blinded() && ctx.group == c.group && ctx.gen == c.g
    requires 0 < sec < N && msg < N && |nonce32| == 32
    ensures ret <==> !Unfit(c, sec, msg, nonce32)
    ensures ret ==> recid < 4 && IsSignature(c, sig64, recid, msg, Times(c.group, sec, c.g))
    ensures ret ==> |sig64| == 64 && MadeWith(c, Value(sig64[..32]), recid, Value(nonce32))
    ensures !ret ==> sig64 == Zeros64()
  {
    ret, sig64, recid := false, Zeros64(), 0;
    var (non, overflow) := SetB32(nonce32);
    if non != 0 && !overflow {
      var r, s;
      ret, r, s, recid := SigSign(c, ctx, sec, msg, non);
      if ret {
        ScalarRoundTrip(r);
        ScalarRoundTrip(s);
        sig64 := Joined(Fixed(r, 32), Fixed(s, 32));
      }
    }
  }

  function Joined(r: Bytes, s: Bytes): (b: Bytes)
    requires |r| == |s| == 32
    ensures |b| == 64 && b[..32] == r && b[32..] == s
  {
    r + s
  }

  /** 64 bytes that hold a signature with a small second half, from which `q` is recovered. */
  ghost predicate IsSignature<E>(c: Curve<E>, sig64: Bytes, recid: nat, m: nat, q: E) {
    && |sig64| == 64 && Value(sig64[..32]) < N && Value(sig64[32..]) <= N / 2
    && Recovers(c, m, Value(sig64[..32]), Value(sig64[32..]), recid, q)
  }

  /** ecdsa_recover_compact up to the form in which the key is written. */
  method RecoverCompact<E(==,!new)>(c: Curve<E>, ctx: Ecmult.Context<E>, msg32: Bytes, sig64: Bytes, recid: nat)
    returns (q: Option<E>)
    requires CurveLaws(c) && ctx.Valid() && ctx.preG != null && ctx.group == c.group && ctx.gen == c.g
    requires |msg32| == 32 && |sig64| == 64 && recid < 4
    ensures forall k: E :: q == Some(k) <==> Recovers(c, Value(msg32) % N, Value(sig64[..32]), Value(sig64[32..]), recid, k)
  {
    q := None;
    var (r, overflow) := SetB32(sig64[..32]);
    Below2N(sig64[..32]);
    Below2N(sig64[32..]);
    if !overflow {
      var (s, tooLarge) := SetB32(sig64[32..]);
      if !tooLarge {
        var (m, _) := SetB32(msg32);
        q := SigRecover(c, ctx, r, s, m, recid);
      }
    }
  }

  /** Whatever the blinding and the nonces: what is signed recovers to the signer's key. */
  method SignThenRecover<E(==,!new)>(c: Curve<E>, gen: EcmultGen.Context<E>, ctx: Ecmult.Context<E>, msg32: Bytes,
                                     seckey: Bytes, nonces: seq<Bytes>)
    returns (signed: bool, q: Option<E>)
    requires CurveLaws(c) && gen.Built() && gen.Blinded() && gen.group == c.group && gen.gen == c.g
    requires ctx.Valid() && ctx.preG != null && ctx.group == c.group && ctx.gen == c.g
    requires |msg32| == |seckey| == 32 && forall i | 0 <= i < |nonces| :: |nonces[i]| == 32
    ensures signed <==> 0 < Value(seckey) < N && SomeFit(c, Value(seckey), Value(msg32) % N, nonces)
    ensures q == if signed then Some(Times(c.group, Value(seckey), c.g)) else None
  {
    var sig64, recid;
    signed, sig64, recid := SignCompact(c, gen, msg32, seckey, nonces);
    q := None;
    if signed { q := RecoverCompact(c, ctx, msg32, sig64, recid); }
  }
}
