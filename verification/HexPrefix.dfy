/**
  Hex-prefix notation (Appendix C of the Ethereum Yellow Paper) and the nibble views of
  libdevcore/TrieCommon.h: a key packed two nibbles to the byte behind a flag nibble that
  records whether the count is odd and whether the pair is a leaf.
 */
module HexPrefix {
  import opened Bytes

  function Flag(leaf: bool, odd: bool): Nibble {
    if leaf then if odd then 3 else 2 else if odd then 1 else 0
  }

  /** A byte from its two halves. */
  function Joined(high: Nibble, low: Nibble): (b: Byte)
    ensures b / 16 == high && b % 16 == low
  {
    16 * high + low
  }

  /** An even number of nibbles, two to the byte. */
  function Pack(k: Key): (b: Bytes)
    requires |k| % 2 == 0
    ensures 2 * |b| == |k|
  {
    if k == [] then [] else [Joined(k[0], k[1])] + Pack(k[2..])
  }

  function Encode(k: Key, leaf: bool): (b: Bytes)
    ensures b != [] && |b| == |k| / 2 + 1
  {
    if |k| % 2 == 1 then [Joined(Flag(leaf, true), k[0])] + Pack(k[1..])
    else [Joined(Flag(leaf, false), 0)] + Pack(k)
  }

  /** The leaf flag, `0x20` of the first byte. */
  predicate IsLeafByte(b: Bytes)
    requires b != []
  {
    (b[0] / 32) % 2 == 1
  }

  // ---------------------------------------------------------------- views

  /** dev::nibble. */
  function NibbleAt(data: Bytes, i: nat): Nibble
    requires i < 2 * |data|
  {
    if i % 2 == 1 then data[i / 2] % 16 else data[i / 2] / 16
  }

  lemma NibbleAtIsNibble(data: Bytes, i: nat)
    requires i < 2 * |data|
    ensures NibbleAt(data, i) == AsNibbles(data)[i]
  {
    var j := i / 2;
    assert AsNibbles(data)[2 * j] == data[j] / 16 && AsNibbles(data)[2 * j + 1] == data[j] % 16;
    assert i == 2 * j || i == 2 * j + 1;
  }

  datatype NibbleSlice = NibbleSlice(data: Bytes, offset: nat) {
    predicate Valid() {
      offset <= 2 * |data|
    }

    function Size(): nat
      requires Valid()
    {
      2 * |data| - offset
    }

    /** The nibbles the view shows. */
    function Nibbles(): (k: Key)
      requires Valid()
      ensures |k| == Size()
    {
      AsNibbles(data)[offset..]
    }

    function At(i: nat): (n: Nibble)
      requires Valid() && i < Size()
      ensures n == Nibbles()[i]
    {
      NibbleAtIsNibble(data, offset + i);
      NibbleAt(data, offset + i)
    }

    function Mid(i: nat): (s: NibbleSlice)
      requires Valid() && i <= Size()
      ensures s.Valid() && s.Nibbles() == Nibbles()[i..]
    {
      NibbleSlice(data, offset + i)
    }

    /** dev::sharedNibbles. */
    method SharedWith(k: NibbleSlice) returns (n: nat)
      requires Valid() && k.Valid()
      ensures n == Shared(Nibbles(), k.Nibbles())
    {
      hide Shared, NibbleAt;
      var a, b := offset, k.offset;
      n := 0;
      ghost var x, y := Nibbles(), k.Nibbles();
      while a < 2 * |data| && b < 2 * |k.data| && NibbleAt(data, a) == NibbleAt(k.data, b)
        invariant a == offset + n && b == k.offset + n && a <= 2 * |data| && b <= 2 * |k.data|
        invariant x[..n] == y[..n]
      {
        NibbleAtIsNibble(data, a);
        NibbleAtIsNibble(k.data, b);
        assert x[n] == y[n];
        assert x[..n + 1] == x[..n] + [x[n]] && y[..n + 1] == y[..n] + [y[n]];
        a, b, n := a + 1, b + 1, n + 1;
      }
      if a < 2 * |data| && b < 2 * |k.data| {
        NibbleAtIsNibble(data, a);
        NibbleAtIsNibble(k.data, b);
      }
      SharedIsLongest(x, y, n);
    }

    /** `k` is a prefix of this view. */
    method Contains(k: NibbleSlice) returns (r: bool)
      requires Valid() && k.Valid()
      ensures r <==> k.Nibbles() <= Nibbles()
    {
      var n := SharedWith(k);
      PrefixIsShared(Nibbles(), k.Nibbles());
      r := n == k.Size();
    }

    method Equals(k: NibbleSlice) returns (r: bool)
      requires Valid() && k.Valid()
      ensures r <==> Nibbles() == k.Nibbles()
    {
      var n := SharedWith(k);
      PrefixIsShared(Nibbles(), k.Nibbles());
      r := k.Size() == Size() && n == k.Size();
    }

    /** This key comes before every key that starts with `k`. */
    method IsEarlierThan(k: NibbleSlice) returns (r: bool)
      requires Valid() && k.Valid()
      ensures r <==> Before(Nibbles(), k.Nibbles()) && !(k.Nibbles() <= Nibbles())
    {
      hide Before;
      var i := 0;
      while i < k.Size() && i < Size()
        invariant i <= k.Size() && i <= Size() && k.Nibbles()[..i] == Nibbles()[..i]
      {
        BeforeAt(Nibbles(), k.Nibbles(), i);
        if At(i) < k.At(i) { return true; }
        if At(i) > k.At(i) { return false; }
        assert k.Nibbles()[..i + 1] == k.Nibbles()[..i] + [k.Nibbles()[i]];
        assert Nibbles()[..i + 1] == Nibbles()[..i] + [Nibbles()[i]];
        i := i + 1;
      }
      assert Nibbles()[..Size()] == Nibbles() && k.Nibbles()[..k.Size()] == k.Nibbles();
      PrefixIsBefore(Nibbles(), k.Nibbles());
      return i < k.Size();
    }
  }

  /** Lexicographic order; a proper prefix comes first. */
  predicate Before(a: Key, b: Key) {
    b != [] && (a == [] || a[0] < b[0] || (a[0] == b[0] && Before(a[1..], b[1..])))
  }

  lemma {:induction false} SharedIsLongest(a: Key, b: Key, n: nat)
    requires n <= |a| && n <= |b| && a[..n] == b[..n]
    requires n < |a| && n < |b| ==> a[n] != b[n]
    ensures n == Shared(a, b)
  {
    if n > 0 {
      assert a[0] == a[..n][0] == b[..n][0] == b[0];
      assert a[1..][..n - 1] == a[..n][1..] && b[1..][..n - 1] == b[..n][1..];
      SharedIsLongest(a[1..], b[1..], n - 1);
    }
  }

  lemma PrefixIsShared(a: Key, b: Key)
    ensures Shared(a, b) == |b| <==> b <= a
  {
    if b <= a { SharedIsLongest(a, b, |b|); }
  }

  /** The order of two keys is decided at the first nibble where they differ. */
  lemma {:induction false} BeforeAt(a: Key, b: Key, i: nat)
    requires i < |a| && i < |b| && a[..i] == b[..i]
    ensures a[i] < b[i] ==> Before(a, b) && !(b <= a)
    ensures a[i] > b[i] ==> !Before(a, b)
  {
    if i > 0 {
      assert a[0] == a[..i][0] == b[..i][0] == b[0];
      assert a[1..][..i - 1] == a[..i][1..] && b[1..][..i - 1] == b[..i][1..];
      BeforeAt(a[1..], b[1..], i - 1);
    }
  }

  lemma {:induction false} PrefixIsBefore(a: Key, b: Key)
    ensures a <= b && a != b ==> Before(a, b) && !(b <= a)
    ensures b <= a ==> !Before(a, b)
  {
    if a != [] && b != [] { PrefixIsBefore(a[1..], b[1..]); }
    if a <= b && a != b && a != [] { assert a[1..] <= b[1..]; }
    if b <= a && b != [] { assert b[1..] <= a[1..]; }
  }

  /** dev::keyOf: the view that skips the flag nibble, and the padding nibble of an even count. */
  function KeyOf(hpe: Bytes): (s: NibbleSlice)
    ensures s.Valid()
  {
    if hpe == [] then NibbleSlice(hpe, 0)
    else if (hpe[0] / 16) % 2 == 1 then NibbleSlice(hpe, 1)
    else NibbleSlice(hpe, 2)
  }

  // ---------------------------------------------------------------- decoding undoes encoding

  lemma {:induction false} NibblesOfPacked(k: Key)
    requires |k| % 2 == 0
    ensures AsNibbles(Pack(k)) == k
  {
    if k != [] {
      NibblesOfPacked(k[2..]);
      assert Pack(k)[1..] == Pack(k[2..]);
      assert k == [k[0], k[1]] + k[2..];
    }
  }

  /** What the flag nibble says can be read off the first byte. */
  lemma FlagBits(leaf: bool, odd: bool, low: Nibble)
    ensures var b := Joined(Flag(leaf, odd), low);
      && b / 16 == Flag(leaf, odd) && b % 16 == low
      && ((b / 16) % 2 == 1 <==> odd) && ((b / 32) % 2 == 1 <==> leaf)
  {
  }

  lemma AsNibblesOfFirst(b: Byte, rest: Bytes)
    ensures AsNibbles([b] + rest) == [b / 16, b % 16] + AsNibbles(rest)
  {
    assert ([b] + rest)[1..] == rest;
  }

  lemma {:induction false} PackedBytes(k: Key, i: nat)
    requires |k| % 2 == 0 && i < |Pack(k)|
    ensures Pack(k)[i] == 16 * (k[2 * i] as int) + k[2 * i + 1] as int
  {
    if i > 0 {
      PackedBytes(k[2..], i - 1);
      hide Joined;
      assert Pack(k)[i] == Pack(k[2..])[i - 1];
      assert k[2..][2 * (i - 1)] == k[2 * i] && k[2..][2 * (i - 1) + 1] == k[2 * i + 1];
    }
  }

  /**
    Every byte of the encoding: bit 5 of the first is the leaf flag and bit 4 says that the count is
    odd, in which case the first nibble is its low half; two nibbles make each byte behind it.
   */
  lemma EncodedBytes(k: Key, leaf: bool, i: nat)
    requires i <= |k| / 2
    ensures var b, odd := Encode(k, leaf), |k| % 2;
      b[i] == if i == 0 then 32 * (if leaf then 1 else 0) + (if odd == 1 then 16 + k[0] as int else 0)
              else 16 * (k[2 * i - 2 + odd] as int) + k[2 * i - 1 + odd] as int
  {
    if i == 0 { FirstByte(k, leaf); } else { ByteBehind(k, leaf, |k| / 2, |k| % 2, i - 1); }
  }

  lemma FirstByte(k: Key, leaf: bool)
    ensures Encode(k, leaf)[0] == 32 * (if leaf then 1 else 0) + if |k| % 2 == 1 then 16 + k[0] as int else 0
  {
    hide Pack;
  }

  lemma ByteBehind(k: Key, leaf: bool, half: nat, odd: nat, j: nat)
    requires |k| == 2 * half + odd && odd < 2 && j < half
    ensures Encode(k, leaf)[j + 1] == 16 * (k[2 * j + odd] as int) + k[2 * j + 1 + odd] as int
  {
    hide Joined, Flag, Pack;
    var body := k[odd..];
    assert odd == 0 ==> body == k;
    assert |k| % 2 == odd && |body| % 2 == 0;
    assert Encode(k, leaf)[1..] == Pack(body);
    PackedBytes(body, j);
    assert body[2 * j] == k[2 * j + odd] && body[2 * j + 1] == k[2 * j + 1 + odd];
  }

  /** What isLeaf and keyOf read off any first byte: its bits 5 and 4. */
  lemma FlagsOfByte(hpe: Bytes)
    requires hpe != []
    ensures IsLeafByte(hpe) <==> hpe[0] % 64 >= 32
    ensures KeyOf(hpe).data == hpe && KeyOf(hpe).offset == if hpe[0] % 32 >= 16 then 1 else 2
  {
  }

  /** The nibbles and the leaf flag come back from the encoding. */
  lemma DecodeEncode(k: Key, leaf: bool)
    ensures KeyOf(Encode(k, leaf)).Nibbles() == k
    ensures IsLeafByte(Encode(k, leaf)) == leaf
  {
    hide Joined, Flag, Pack, AsNibbles;
    var odd := |k| % 2 == 1;
    var low, body := if odd then k[0] else 0, if odd then k[1..] else k;
    var first := Joined(Flag(leaf, odd), low);
    assert Encode(k, leaf) == [first] + Pack(body);
    FlagBits(leaf, odd, low);
    NibblesOfPacked(body);
    AsNibblesOfFirst(first, Pack(body));
    BehindTheFlag(first / 16, low, body);
    assert odd ==> k == [k[0]] + k[1..];
  }

  lemma BehindTheFlag(flag: Nibble, low: Nibble, body: Key)
    ensures ([flag, low] + body)[1..] == [low] + body && ([flag, low] + body)[2..] == body
  {
  }

  lemma EncodeIsInjective(k: Key, leaf: bool, k': Key, leaf': bool)
    requires Encode(k, leaf) == Encode(k', leaf')
    ensures k == k' && leaf == leaf'
  {
    DecodeEncode(k, leaf);
    DecodeEncode(k', leaf');
  }

  // ---------------------------------------------------------------- the three encoders

  function Last(b: Bytes): Byte
    requires b != []
  {
    b[|b| - 1]
  }

  /** Pushes one nibble behind `ret`; `half` says that the low half of the last byte is still free. */
  function PushOne(ret: Bytes, n: Nibble, half: bool): (r: Bytes)
    requires ret != []
    ensures r != []
  {
    if half then ret[..|ret| - 1] + [Joined(Last(ret) / 16, n)] else ret + [Joined(n, 0)]
  }

  function Push(ret: Bytes, k: Key, half: bool): (r: Bytes)
    requires ret != []
    ensures r != []
    decreases |k|
  {
    if k == [] then ret else Push(PushOne(ret, k[0], half), k[1..], !half)
  }

  /** Or-ing a nibble onto a byte whose low half is zero. */
  lemma OrLow(ret: Bytes, n: Nibble)
    requires ret != [] && Last(ret) % 16 == 0
    ensures Last(ret) + n < 256 && ret[|ret| - 1 := Last(ret) + n] == PushOne(ret, n, true)
  {
    assert Last(ret) == 16 * (Last(ret) / 16);
  }

  /** Whether the low half is free after `n` more nibbles. */
  function HalfAfter(half: bool, n: nat): bool
    decreases n
  {
    if n == 0 then half else HalfAfter(!half, n - 1)
  }

  lemma {:induction false} PushAppend(ret: Bytes, a: Key, b: Key, half: bool)
    requires ret != []
    ensures Push(ret, a + b, half) == Push(Push(ret, a, half), b, HalfAfter(half, |a|))
    decreases |a|
  {
    if a == [] {
      assert a + b == b;
    } else {
      assert (a + b)[0] == a[0] && (a + b)[1..] == a[1..] + b;
      PushAppend(PushOne(ret, a[0], half), a[1..], b, !half);
    }
  }

  lemma {:induction false} PushIsPack(ret: Bytes, k: Key)
    requires ret != [] && |k| % 2 == 0
    ensures Push(ret, k, false) == ret + Pack(k)
    decreases |k|
  {
    if k != [] {
      PushTwo(ret, k);
      PushIsPack(ret + [Joined(k[0], k[1])], k[2..]);
      assert ret + [Joined(k[0], k[1])] + Pack(k[2..]) == ret + Pack(k);
    }
  }

  /** Two nibbles fill a byte. */
  lemma PushTwo(ret: Bytes, k: Key)
    requires ret != [] && |k| >= 2
    ensures Push(ret, k, false) == Push(ret + [Joined(k[0], k[1])], k[2..], false)
  {
    var once := PushOne(ret, k[0], false);
    assert once[..|once| - 1] == ret;
    assert k[1..][1..] == k[2..] && k[1..][0] == k[1];
    assert PushOne(once, k[1], true) == ret + [Joined(k[0], k[1])];
  }

  /** The flag byte with its low half free. */
  function Start(leaf: bool, odd: bool): (b: Bytes)
    ensures b != []
  {
    [Joined(Flag(leaf, odd), 0)]
  }

  /** Pushing all nibbles behind the flag byte is the encoding. */
  lemma PushIsEncode(k: Key, leaf: bool, odd: bool)
    requires odd == (|k| % 2 == 1)
    ensures Push(Start(leaf, odd), k, odd) == Encode(k, leaf)
  {
    if odd {
      assert PushOne(Start(leaf, odd), k[0], true) == [Joined(Flag(leaf, true), k[0])];
      PushIsPack([Joined(Flag(leaf, true), k[0])], k[1..]);
    } else {
      PushIsPack([Joined(Flag(leaf, false), 0)], k);
    }
  }

  lemma PackStep(ret: Bytes, v: Key, i: nat, end: nat)
    requires i + 2 <= end <= |v| && (end - i) % 2 == 0
    ensures ret + Pack(v[i..end]) == ret + [Joined(v[i], v[i + 1])] + Pack(v[i + 2..end])
  {
    hide Joined;
    assert v[i..end][2..] == v[i + 2..end] && v[i..end][0] == v[i] && v[i..end][1] == v[i + 1];
  }

  /** The loop of the encoder for vectors, which takes two nibbles at a time. */
  method PackPairs(start: Bytes, v: Key, begin: nat, end: nat) returns (ret: Bytes)
    requires begin <= end <= |v| && (end - begin) % 2 == 0
    ensures ret == start + Pack(v[begin..end])
  {
    hide Joined;
    ret := start;
    var i := begin;
    while i < end
      invariant begin <= i <= end && (end - i) % 2 == 0
      invariant ret + Pack(v[i..end]) == start + Pack(v[begin..end])
    {
      PackStep(ret, v, i, end);
      ret := ret + [Joined(v[i], v[i + 1])];
      i := i + 2;
    }
    assert Pack(v[i..end]) == [];
  }

  /** The end a caller means: a negative one counts from the back. */
  function End(size: nat, end: int): int {
    if end < 0 then size + 1 + end else end
  }

  /** The ends from -1 - size to size stand for the places 0 to size, twice over. */
  lemma EndsAreCounted(size: nat, end: int, place: nat)
    requires -1 - size <= end <= size && place <= size
    ensures End(size, end) == place <==> (place - end) % (size + 1) == 0
  {
    var n, d := size + 1, place - end;
    assert d == n * (d / n) + d % n;
    if d % n == 0 {
      assert -n < d < 2 * n;
      assert d / n == 0 || d / n == 1;
    }
  }

  /** The encoder for a vector with one nibble to the element. */
  method EncodeVector(v: Key, leaf: bool, begin: nat, end: int) returns (ret: Bytes)
    requires begin <= End(|v|, end) <= |v|
    ensures ret == Encode(v[begin..End(|v|, end)], leaf)
  {
    var stop := End(|v|, end);
    ghost var k := v[begin..stop];
    var odd := (stop - begin) % 2 != 0;
    ret := [Joined(Flag(leaf, odd), 0)];
    if odd {
      ret := ret[0 := ret[0] + v[begin]];
      assert ret == [Joined(Flag(leaf, true), k[0])] && k[1..] == v[begin + 1..stop];
      ret := PackPairs(ret, v, begin + 1, stop);
    } else {
      ret := PackPairs(ret, v, begin, stop);
    }
  }

  /** The loop body of the other two encoders: or onto the last byte, or push a new one. */
  method PushNibble(ret: Bytes, n: Nibble, half: bool) returns (r: Bytes, half': bool)
    requires ret != [] && (half ==> Last(ret) % 16 == 0)
    ensures r == PushOne(ret, n, half) && half' == !half && (half' ==> Last(r) % 16 == 0)
  {
    half' := !half;
    if half {
      OrLow(ret, n);
      r := ret[|ret| - 1 := Last(ret) + n];
    } else {
      r := ret + [Joined(n, 0)];
    }
  }

  lemma SliceOfRest(k: Key, offset: nat, begin: nat, end: nat)
    requires offset + end <= |k| && begin <= end
    ensures k[offset..][begin..end] == k[begin + offset..end + offset]
  {
  }

  /** The loop the other two encoders share. */
  method PushNibbles(start: Bytes, startHalf: bool, data: Bytes, begin: nat, end: nat) returns (ret: Bytes, half: bool)
    requires start != [] && (startHalf ==> Last(start) % 16 == 0)
    requires begin <= end <= 2 * |data|
    ensures ret == Push(start, AsNibbles(data)[begin..end], startHalf)
    ensures half == HalfAfter(startHalf, end - begin) && (half ==> Last(ret) % 16 == 0)
  {
    hide Joined, PushOne, AsNibbles, NibbleAt, Last;
    ret, half := start, startHalf;
    var i := begin;
    ghost var all := AsNibbles(data);
    while i < end
      invariant begin <= i <= end
      invariant ret != [] && (half ==> Last(ret) % 16 == 0)
      invariant Push(ret, all[i..end], half) == Push(start, all[begin..end], startHalf)
      invariant HalfAfter(half, end - i) == HalfAfter(startHalf, end - begin)
    {
      NibbleAtIsNibble(data, i);
      var n := NibbleAt(data, i);
      assert all[i..end][0] == n && all[i..end][1..] == all[i + 1..end];
      ret, half := PushNibble(ret, n, half);
      i := i + 1;
    }
  }

  /** The encoder for part of a byte string seen from nibble `offset` on. */
  method EncodeSlice(data: Bytes, leaf: bool, beginNibble: nat, endNibble: int, offset: nat) returns (ret: Bytes)
    requires offset <= 2 * |data|
    requires beginNibble <= End(2 * |data| - offset, endNibble) <= 2 * |data| - offset
    ensures ret == Encode(NibbleSlice(data, offset).Nibbles()[beginNibble..End(2 * |data| - offset, endNibble)], leaf)
  {
    hide Joined, Flag, Push, Encode, AsNibbles;
    var stop := End(2 * |data| - offset, endNibble);
    var odd := (stop - beginNibble) % 2 == 1;
    var half;
    ghost var k := NibbleSlice(data, offset).Nibbles()[beginNibble..stop];
    SliceOfRest(AsNibbles(data), offset, beginNibble, stop);
    ret, half := PushNibbles([Joined(Flag(leaf, odd), 0)], odd, data, beginNibble + offset, stop + offset);
    PushIsEncode(k, leaf, odd);
  }

  /** The encoder for two views in a row. */
  method EncodePair(d1: Bytes, o1: nat, d2: Bytes, o2: nat, leaf: bool) returns (ret: Bytes)
    requires o1 <= 2 * |d1| && o2 <= 2 * |d2|
    ensures ret == Encode(NibbleSlice(d1, o1).Nibbles() + NibbleSlice(d2, o2).Nibbles(), leaf)
  {
    hide Joined, Flag, Push, Encode, AsNibbles;
    var end1, end2 := 2 * |d1|, 2 * |d2|;
    var odd := (end1 - o1 + end2 - o2) % 2 == 1;
    ghost var k1, k2 := NibbleSlice(d1, o1).Nibbles(), NibbleSlice(d2, o2).Nibbles();
    assert k1 == AsNibbles(d1)[o1..end1] && k2 == AsNibbles(d2)[o2..end2];
    var half;
    ret, half := PushNibbles([Joined(Flag(leaf, odd), 0)], odd, d1, o1, end1);
    PushAppend(Start(leaf, odd), k1, k2, odd);
    ret, half := PushNibbles(ret, half, d2, o2, end2);
    PushIsEncode(k1 + k2, leaf, odd);
  }

  /**
    On the same nibbles the three encoders give the same bytes, and the views read them back:
    whether two views hold them in a row, a part of one view, or a vector.
   */
  method EncodersAgree(one: NibbleSlice, two: NibbleSlice, view: NibbleSlice, begin: nat, end: int, vector: Key, leaf: bool)
    returns (a: Bytes, b: Bytes, c: Bytes)
    requires one.Valid() && two.Valid() && vector == one.Nibbles() + two.Nibbles()
    requires view.Valid() && begin <= End(view.Size(), end) <= view.Size()
    requires view.Nibbles()[begin..End(view.Size(), end)] == vector
    ensures a == b == c == Encode(vector, leaf)
    ensures KeyOf(a).Nibbles() == vector && IsLeafByte(a) == leaf
    ensures a[0] == 32 * (if leaf then 1 else 0) + if |vector| % 2 == 1 then 16 + vector[0] as int else 0
  {
    hide Encode, AsNibbles;
    assert vector[0..|vector|] == vector;
    a := EncodeVector(vector, leaf, 0, -1);
    b := EncodeSlice(view.data, leaf, begin, end, view.offset);
    c := EncodePair(one.data, one.offset, two.data, two.offset, leaf);
    DecodeEncode(vector, leaf);
    FirstByte(vector, leaf);
  }
}
