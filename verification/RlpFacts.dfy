/** Strict reading is the exact inverse of encoding. */
module RlpFacts {
  import opened Bytes
  import opened BigEndian
  import opened Rlp

  /** A length written out in bytes reads back. */
  lemma LongLengthReadsBack(first: Byte, len: nat, rest: Bytes)
    requires ImmediateCount <= len < LengthLimit
    ensures Announceable(len)
    ensures LongLength([first] + Shortest(len) + rest, |Shortest(len)|) == Ok(len)
  {
    LimitIsEightBytes(len);
    var b := Shortest(len);
    var d := [first] + b + rest;
    assert d[1..1 + |b|] == b;
    assert d[1] == b[0];
    ValueOfShortest(len);
  }

  lemma LongHeaderReadsBack(start: Byte, len: nat, rest: Bytes)
    requires start == DataStart || start == ListStart
    requires ImmediateCount <= len < LengthLimit
    ensures Announceable(len)
    ensures var d := Header(start, len) + rest;
      && d[0] >= start && (start == DataStart ==> d[0] < ListStart)
      && PayloadOffset(d) == HeaderSize(len) && Length(d) == Ok(len)
  {
    LimitIsEightBytes(len);
    var n := |Shortest(len)|;
    var first := start + IndirectZero + n;
    LongLengthReadsBack(first, len, rest);
    var d := [first] + Shortest(len) + rest;
    assert Header(start, len) + rest == d;
    assert Length(d) == LongLength(d, n);
  }

  /** A header reads back as the length it was written for. */
  lemma HeaderReadsBack(start: Byte, len: nat, rest: Bytes)
    requires start == DataStart || start == ListStart
    requires len < LengthLimit
    requires start == DataStart && len == 1 ==> rest != [] && rest[0] >= DataStart
    ensures Announceable(len)
    ensures var d := Header(start, len) + rest;
      && d[0] >= start && (start == DataStart ==> d[0] < ListStart)
      && PayloadOffset(d) == HeaderSize(len) && Length(d) == Ok(len)
  {
    if len >= ImmediateCount {
      LongHeaderReadsBack(start, len, rest);
    } else {
      LimitIsEightBytes(len);
      var d := Header(start, len) + rest;
      assert d == [start + len] + rest;
      if len == 1 && start == DataStart { assert d[1] == rest[0]; }
    }
  }

  /** The header of a payload: one byte up to 55, else a byte and the length in as few bytes as it takes. */
  lemma HeaderForm(start: Byte, len: nat)
    requires (start == 0x80 || start == 0xc0) && len < 0x1_0000_0000_0000_0000
    ensures Announceable(len)
    ensures len <= 55 ==> Header(start, len) == [start + len]
    ensures len > 55 ==>
      var n := |Shortest(len)|;
      1 <= n <= 8 && Pow256(n - 1) <= len < Pow256(n) && Header(start, len) == [start + 55 + n] + Shortest(len)
  {
    AnnounceableBelow(len);
    if len > 55 {
      var n := |Shortest(len)|;
      ShortestLength(len, n);
      ShortestLength(len, 0);
      ShortestLength(len, n - 1);
    }
  }

  lemma AnnounceableBelow(len: nat)
    ensures Announceable(len) <==> len < 0x1_0000_0000_0000_0000
  {
    assert Pow256(8) == 0x1_0000_0000_0000_0000 by {
      assert Pow256(2) == 0x1_0000;
      assert Pow256(4) == 0x1_0000_0000;
      assert Pow256(6) == 0x1_0000_0000_0000;
    }
    ShortestLength(len, 8);
  }

  /** The encoding byte by byte, as Appendix B of the Yellow Paper has it. */
  lemma EncodingForm(x: Item)
    requires Fits(x)
    ensures match x
      case Data(b) =>
        if |b| == 1 && b[0] <= 0x7f then Encode(x) == b
        else if |b| <= 55 then Encode(x) == [0x80 + |b|] + b
        else |Shortest(|b|)| <= 8 && Encode(x) == [0xb7 + |Shortest(|b|)|] + Shortest(|b|) + b
      case List(items) =>
        var p := EncodeAll(items);
        if |p| <= 55 then Encode(x) == [0xc0 + |p|] + p
        else |Shortest(|p|)| <= 8 && Encode(x) == [0xf7 + |Shortest(|p|)|] + Shortest(|p|) + p
  {
    match x
    case Data(b) => HeaderForm(0x80, |b|);
    case List(items) => HeaderForm(0xc0, |EncodeAll(items)|);
  }

  /** Every length is read up to the largest 64-bit size less 0x100; from there on it is refused. */
  lemma LengthsRead(start: Byte, len: nat, rest: Bytes)
    requires (start == 0x80 || start == 0xc0) && len < 0x1_0000_0000_0000_0000
    requires start == 0x80 && len == 1 ==> rest != [] && rest[0] >= 0x80
    ensures Announceable(len)
    ensures Length(Header(start, len) + rest) == if len < 0xffff_ffff_ffff_feff then Ok(len) else Thrown
  {
    HeaderForm(start, len);
    if len < 0xffff_ffff_ffff_feff {
      HeaderReadsBack(start, len, rest);
    } else {
      var b := Shortest(len);
      var d := [start + 55 + |b|] + b + rest;
      assert Header(start, len) + rest == d;
      TooLongIsThrown(start, b, rest, len);
    }
  }

  lemma TooLongIsThrown(start: Byte, b: Bytes, rest: Bytes, len: nat)
    requires (start == 0x80 || start == 0xc0) && 1 <= |b| <= 8 && b == Shortest(len)
    requires len >= 0xffff_ffff_ffff_feff
    ensures Length([start + 55 + |b|] + b + rest) == Thrown
  {
    hide Shortest, Value;
    var d := [start + 55 + |b|] + b + rest;
    assert d[1..1 + |b|] == b;
    ValueOfShortest(len);
    assert Length(d) == LongLength(d, |b|);
  }

  /** Whatever follows it, an encoded item announces its own size. */
  lemma SizeReadsBack(x: Item, rest: Bytes)
    requires Fits(x)
    ensures ActualSize(Encode(x) + rest) == Ok(Size(x))
    ensures SizeAsEncoded(Encode(x) + rest) == Ok(Size(x))
  {
    LimitIsEightBytes(if x.Data? then |x.bytes| else SizeAll(x.items));
    match x
    case Data(b) =>
      if |b| != 1 || b[0] >= DataStart {
        assert Encode(x) + rest == Header(DataStart, |b|) + (b + rest);
        HeaderReadsBack(DataStart, |b|, b + rest);
      }
    case List(items) =>
      assert Encode(x) + rest == Header(ListStart, SizeAll(items)) + (EncodeAll(items) + rest);
      HeaderReadsBack(ListStart, SizeAll(items), EncodeAll(items) + rest);
  }

  /** The payload of an encoded item, and the kind its first byte shows. */
  lemma PayloadReadsBack(x: Item)
    requires Fits(x)
    ensures var d := Encode(x);
      && d != [] && ActualSize(d) == Ok(|d|)
      && (x.List? <==> IsList(d)) && (x.Data? <==> IsData(d))
      && Payload(d) == Ok(if x.Data? then x.bytes else EncodeAll(x.items))
  {
    var d := Encode(x);
    assert d + [] == d;
    SizeReadsBack(x, []);
    LimitIsEightBytes(if x.Data? then |x.bytes| else SizeAll(x.items));
    match x
    case Data(b) =>
      if |b| != 1 || b[0] >= DataStart {
        HeaderReadsBack(DataStart, |b|, b);
        assert d[HeaderSize(|b|)..HeaderSize(|b|) + |b|] == b;
      }
    case List(items) =>
      HeaderReadsBack(ListStart, SizeAll(items), EncodeAll(items));
      assert d[HeaderSize(SizeAll(items))..HeaderSize(SizeAll(items)) + SizeAll(items)] == EncodeAll(items);
  }

  /** Reading what was written gives back the item. */
  lemma {:induction false} DecodeEncode(x: Item)
    requires Fits(x)
    ensures Decode(Encode(x)) == Ok(x)
    decreases x, 0
  {
    PayloadReadsBack(x);
    if x.List? { DecodeEncodeAll(x.items); }
  }

  lemma {:induction false} DecodeEncodeAll(items: seq<Item>)
    requires FitsAll(items)
    ensures DecodeAll(EncodeAll(items)) == Ok(items)
    decreases items, 1
  {
    hide Decode, Encode, Fits;
    if items != [] {
      var head, tail := Encode(items[0]), EncodeAll(items[1..]);
      SizeReadsBack(items[0], tail);
      assert (head + tail)[..|head|] == head && (head + tail)[|head|..] == tail;
      DecodeEncode(items[0]);
      DecodeEncodeAll(items[1..]);
      assert EncodeAll(items) == head + tail && head + tail != [];
      assert items == [items[0]] + items[1..];
    }
  }

  /** A header the reader accepts is the one the writer produces for the same length. */
  lemma HeaderIsCanonical(d: Bytes)
    requires d != [] && d[0] >= DataStart && Length(d).Ok? && PayloadOffset(d) <= |d|
    requires d[0] != DataStart
    ensures Length(d).value < LengthLimit && Announceable(Length(d).value)
    ensures d[..PayloadOffset(d)] == Header(if IsData(d) then DataStart else ListStart, Length(d).value)
  {
    hide Shortest, Value;
    var len := Length(d).value;
    LimitIsEightBytes(len);
    var n := PayloadOffset(d) - 1;
    assert d[..n + 1] == [d[0]] + d[1..n + 1];
    if n > 0 {
      assert d[1..n + 1][0] == d[1];
      ShortestOfValue(d[1..n + 1]);
    }
  }

  /** Bytes of the announced size are the canonical header followed by the payload. */
  lemma HeaderThenPayload(d: Bytes)
    requires d != [] && d[0] >= DataStart && ActualSize(d) == Ok(|d|)
    ensures Payload(d).Ok? && |Payload(d).value| < LengthLimit && Announceable(|Payload(d).value|)
    ensures d == Header(if IsData(d) then DataStart else ListStart, |Payload(d).value|) + Payload(d).value
  {
    hide Shortest, Value;
    var offset := PayloadOffset(d);
    var p := Payload(d).value;
    assert d == d[..offset] + p;
    if d[0] == DataStart {
      LimitIsEightBytes(0);
      assert d[..offset] == [d[0]];
    } else {
      HeaderIsCanonical(d);
    }
  }

  /** Whatever strict reading accepts is exactly the encoding of what it returns. */
  lemma {:induction false} EncodeDecode(d: Bytes)
    requires Decode(d).Ok?
    ensures Fits(Decode(d).value) && Encode(Decode(d).value) == d
    decreases |d|, 0
  {
    var p := Payload(d).value;
    if d[0] >= DataStart {
      HeaderThenPayload(d);
      if IsList(d) {
        EncodeDecodeAll(p);
      } else if |p| == 1 {
        ShortStringIsGood(d);
      }
    }
  }

  /** A one-byte string is only accepted under a header if it could not stand for itself. */
  lemma ShortStringIsGood(d: Bytes)
    requires IsData(d) && d[0] >= DataStart && ActualSize(d) == Ok(|d|)
    requires |Payload(d).value| == 1
    ensures Payload(d).value[0] >= DataStart
  {
    HeaderThenPayload(d);
    assert d[0] == DataStart + 1 && d[1] == Payload(d).value[0];
  }

  lemma {:induction false} EncodeDecodeAll(p: Bytes)
    requires DecodeAll(p).Ok?
    ensures FitsAll(DecodeAll(p).value) && EncodeAll(DecodeAll(p).value) == p
    decreases |p|, 1
  {
    hide Decode, Encode, Fits, SizeAsEncoded;
    if p != [] {
      var n := SizeAsEncoded(p).value;
      EncodeDecode(p[..n]);
      EncodeDecodeAll(p[n..]);
      var items := DecodeAll(p).value;
      assert items[1..] == DecodeAll(p[n..]).value;
      assert p == p[..n] + p[n..];
    }
  }

  /** The accepted byte strings are exactly the encodings, each of one item only. */
  lemma StrictReadingIsCanonical(d: Bytes, x: Item)
    ensures Decode(d) == Ok(x) <==> Fits(x) && d == Encode(x)
  {
    if Decode(d) == Ok(x) { EncodeDecode(d); }
    if Fits(x) { DecodeEncode(x); }
  }

  /** `isEmpty` on an encoding recognises the empty string and the empty list, and nothing else. */
  lemma EmptyReadsBack(x: Item)
    requires Fits(x)
    ensures IsEmpty(Encode(x)) <==> x == Data([]) || x == List([])
  {
    PayloadReadsBack(x);
    match x
    case Data(b) =>
    case List(items) =>
      if items != [] { assert SizeAll(items) >= Size(items[0]) >= 1; }
      LimitIsEightBytes(SizeAll(items));
  }
}
