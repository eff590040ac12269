/** Big-endian integers, as libdevcore/CommonData.h and RLPStream::pushInt write and read them. */
module BigEndian {
  import opened Arithmetic
  import opened Bytes

  function Pow256(k: nat): (p: nat)
    ensures p >= 1
  {
    if k == 0 then 1 else 256 * Pow256(k - 1)
  }

  /** The shortest big-endian form of `n`; zero has no bytes. */
  function Shortest(n: nat): (b: Bytes)
    ensures b != [] ==> b[0] != 0
    ensures n == 0 <==> b == []
  {
    if n == 0 then [] else
      var high := Shortest(n / 256);
      high + [n % 256]
  }

  function Value(b: Bytes): nat {
    if b == [] then 0 else 256 * Value(b[..|b| - 1]) + b[|b| - 1]
  }

  lemma {:induction false} ValueOfShortest(n: nat)
    ensures Value(Shortest(n)) == n
  {
    if n != 0 {
      var b := Shortest(n);
      assert b[..|b| - 1] == Shortest(n / 256) && b[|b| - 1] == n % 256;
      ValueOfShortest(n / 256);
    }
  }

  lemma {:induction false} ValueIsPositive(b: Bytes)
    requires b != [] && b[0] != 0
    ensures Value(b) > 0
  {
    var front := b[..|b| - 1];
    if front != [] { ValueIsPositive(front); }
  }

  /** Bytes without a leading zero are the shortest form of their value. */
  lemma {:induction false} ShortestOfValue(b: Bytes)
    requires b != [] ==> b[0] != 0
    ensures Shortest(Value(b)) == b
  {
    if b != [] {
      var front, last := b[..|b| - 1], b[|b| - 1];
      assert b == front + [last];
      ValueIsPositive(b);
      ShortestOfValue(front);
      assert Value(b) / 256 == Value(front) && Value(b) % 256 == last;
    }
  }

  lemma {:induction false} ShortestLength(n: nat, k: nat)
    ensures |Shortest(n)| <= k <==> n < Pow256(k)
  {
    if n != 0 && k != 0 {
      ShortestLength(n / 256, k - 1);
    }
  }

  lemma {:induction false} ValueBelow(b: Bytes)
    ensures Value(b) < Pow256(|b|)
  {
    if b != [] { ValueBelow(b[..|b| - 1]); }
  }

  /** dev::bytesRequired: how many bytes the shortest form takes. */
  method BytesRequired(n: nat) returns (i: nat)
    ensures i == |Shortest(n)|
  {
    i := 0;
    var rest := n;
    while rest != 0
      invariant i + |Shortest(rest)| == |Shortest(n)|
      decreases rest
    {
      i := i + 1;
      rest := rest / 256;
    }
  }

  /** The value a byte string denotes, read from its first byte on as dev::fromBigEndian does. */
  method FromBigEndian(b: Bytes) returns (ret: nat)
    ensures ret == Value(b)
  {
    ret := 0;
    var i := 0;
    while i < |b|
      invariant 0 <= i <= |b| && ret == Value(b[..i])
    {
      assert b[..i + 1][..i] == b[..i];
      ret := 256 * ret + b[i];
      i := i + 1;
    }
    assert b[..i] == b;
  }

  /** `n` in exactly `k` bytes, high bytes lost or zero-filled. */
  function Fixed(n: nat, k: nat): (b: Bytes)
    ensures |b| == k
  {
    if k == 0 then [] else Fixed(n / 256, k - 1) + [n % 256]
  }

  /** dev::toBigEndian fills a buffer of the caller's size from its last byte backwards. */
  method ToBigEndian(n: nat, out: array<Byte>)
    modifies out
    ensures out[..] == Fixed(n, out.Length)
  {
    var i, rest := out.Length, n;
    while i != 0
      invariant 0 <= i <= out.Length
      invariant Fixed(n, out.Length) == Fixed(rest, i) + out[i..]
    {
      assert Fixed(rest, i) == Fixed(rest / 256, i - 1) + [rest % 256];
      ghost var tail := out[i..];
      out[i - 1] := rest % 256;
      assert out[i - 1..] == [rest % 256] + tail;
      rest := rest / 256;
      i := i - 1;
    }
    assert out[0..] == out[..];
  }

  /** A buffer that is large enough holds the value; a smaller one holds it modulo its range. */
  lemma {:induction false} FixedHoldsValue(n: nat, k: nat)
    ensures Value(Fixed(n, k)) == n % Pow256(k)
  {
    if k != 0 {
      FixedHoldsValue(n / 256, k - 1);
      var b := Fixed(n, k);
      assert b[..k - 1] == Fixed(n / 256, k - 1);
      ModStep(n, Pow256(k - 1));
    }
  }

  lemma ModStep(n: nat, p: nat)
    requires p >= 1
    ensures 256 * ((n / 256) % p) + n % 256 == n % (256 * p)
  {
    var q := n / 256 / p;
    var r := (n / 256) % p;
    assert n == 256 * (q * p + r) + n % 256;
    assert n == q * (256 * p) + (256 * r + n % 256);
    DivUnique(n, 256 * p, q, 256 * r + n % 256);
  }
}
