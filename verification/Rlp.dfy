/**
  Recursive length prefix encoding: the format (Appendix B of the Ethereum Yellow Paper) and the
  reading functions of libdevcore/RLP.h as they act on a byte string. `Thrown` is an exception.
 */
module Rlp {
  import opened Bytes
  import opened BigEndian

  datatype Item = Data(bytes: Bytes) | List(items: seq<Item>)

  datatype Result<+T> = Ok(value: T) | Thrown

  const MaxLengthBytes := 8
  const DataStart := 0x80
  const ListStart := 0xc0
  const ImmediateCount := ListStart - DataStart - MaxLengthBytes

  /** The header byte that `n` length bytes follow is `start + IndirectZero + n`. */
  const IndirectZero := ImmediateCount - 1

  /** Lengths from here on are rejected, to leave room for the header in a 64-bit size. */
  const LengthLimit := 0xffff_ffff_ffff_ffff - 0x100

  // ---------------------------------------------------------------- writing

  function HeaderSize(len: nat): nat {
    if len < ImmediateCount then 1 else 1 + |Shortest(len)|
  }

  function Size(x: Item): (n: nat)
    ensures n >= 1
  {
    match x
    case Data(b) => if |b| == 1 && b[0] < DataStart then 1 else HeaderSize(|b|) + |b|
    case List(items) => HeaderSize(SizeAll(items)) + SizeAll(items)
  }

  function SizeAll(items: seq<Item>): nat {
    if items == [] then 0 else Size(items[0]) + SizeAll(items[1..])
  }

  /** Every string and every list payload inside `x` has a length the reader accepts. */
  predicate Fits(x: Item) {
    match x
    case Data(b) => |b| < 0xffff_ffff_ffff_feff
    case List(items) => SizeAll(items) < 0xffff_ffff_ffff_feff && FitsAll(items)
  }

  predicate FitsAll(items: seq<Item>) {
    items == [] || (Fits(items[0]) && FitsAll(items[1..]))
  }

  lemma LimitIsEightBytes(n: nat)
    requires n < LengthLimit
    ensures Announceable(n)
  {
    assert Pow256(8) == 0x1_0000_0000_0000_0000 by {
      assert Pow256(2) == 0x1_0000;
      assert Pow256(4) == 0x1_0000_0000;
      assert Pow256(6) == 0x1_0000_0000_0000;
    }
    ShortestLength(n, 8);
  }

  /** The length can be written in the eight bytes a header byte can announce. */
  predicate Announceable(len: nat) {
    |Shortest(len)| <= MaxLengthBytes
  }

  /** The bytes that announce a payload of `len` bytes. */
  function Header(start: Byte, len: nat): (h: Bytes)
    requires start == DataStart || start == ListStart
    requires Announceable(len)
    ensures |h| == HeaderSize(len)
  {
    if len < ImmediateCount then [start + len]
    else [start + IndirectZero + |Shortest(len)|] + Shortest(len)
  }

  function Encode(x: Item): (b: Bytes)
    requires Fits(x)
    ensures |b| == Size(x)
  {
    match x
    case Data(b) =>
      LimitIsEightBytes(|b|);
      if |b| == 1 && b[0] < DataStart then b else Header(DataStart, |b|) + b
    case List(items) =>
      LimitIsEightBytes(SizeAll(items));
      Header(ListStart, SizeAll(items)) + EncodeAll(items)
  }

  function EncodeAll(items: seq<Item>): (b: Bytes)
    requires FitsAll(items)
    ensures |b| == SizeAll(items)
  {
    if items == [] then [] else Encode(items[0]) + EncodeAll(items[1..])
  }

  // ---------------------------------------------------------------- reading

  /** RLP::length: the payload size the header announces. */
  function Length(d: Bytes): Result<nat> {
    if d == [] then Ok(0)
    else if d[0] == DataStart + 1 && (|d| < 2 || d[1] < DataStart) then Thrown
    else if d[0] < DataStart then Ok(1)
    else if d[0] <= DataStart + IndirectZero then Ok(d[0] - DataStart)
    else if d[0] < ListStart then LongLength(d, d[0] - DataStart - IndirectZero)
    else if d[0] <= ListStart + IndirectZero then Ok(d[0] - ListStart)
    else LongLength(d, d[0] - ListStart - IndirectZero)
  }

  /** The case of a length that is itself written out in `lengthSize` bytes. */
  function LongLength(d: Bytes, lengthSize: nat): Result<nat>
    requires 1 <= lengthSize <= 8
  {
    if |d| <= lengthSize || d[1] == 0 then Thrown
    else
      var len := Value(d[1..1 + lengthSize]);
      if len < ImmediateCount || len >= LengthLimit then Thrown else Ok(len)
  }

  function PayloadOffset(d: Bytes): nat {
    if d == [] then 1
    else if d[0] < DataStart then 0
    else if d[0] <= DataStart + IndirectZero then 1
    else if d[0] < ListStart then 1 + d[0] - DataStart - IndirectZero
    else if d[0] <= ListStart + IndirectZero then 1
    else 1 + d[0] - ListStart - IndirectZero
  }

  /** RLP::actualSize: what the item takes up according to its header. */
  function ActualSize(d: Bytes): Result<nat> {
    if d == [] then Ok(0)
    else if d[0] < DataStart then Ok(1)
    else
      var len := Length(d);
      if len.Ok? then Ok(PayloadOffset(d) + len.value) else Thrown
  }

  /** RLP::sizeAsEncoded: as `ActualSize`, but throws when `d` is shorter than that. */
  function SizeAsEncoded(d: Bytes): (r: Result<nat>)
    ensures r.Ok? ==> r.value <= |d| && (d != [] ==> r.value >= 1)
  {
    var n := ActualSize(d);
    if n.Ok? && n.value > |d| then Thrown else n
  }

  /** vector_ref::cropped: the empty reference when the range is out of bounds. */
  function Cropped(d: Bytes, begin: nat, count: nat): Bytes {
    if begin + count <= |d| then d[begin..begin + count] else []
  }

  function Payload(d: Bytes): (r: Result<Bytes>)
    ensures r.Ok? && IsList(d) ==> |r.value| < |d|
  {
    var len := Length(d);
    if len.Thrown? || len.value > |d| then Thrown
    else Ok(Cropped(d, PayloadOffset(d), len.value))
  }

  predicate IsEmpty(d: Bytes) { d != [] && (d[0] == DataStart || d[0] == ListStart) }

  predicate IsData(d: Bytes) { d != [] && d[0] < ListStart }

  predicate IsList(d: Bytes) { d != [] && d[0] >= ListStart }

  /** Reading a whole item strictly: no byte short, none left over, at any depth. */
  function Decode(d: Bytes): Result<Item>
    decreases |d|, 0
  {
    if d == [] || ActualSize(d) != Ok(|d|) then Thrown
    else
      var p := Payload(d);
      if p.Thrown? then Thrown
      else if IsData(d) then Ok(Data(p.value))
      else
        var items := DecodeAll(p.value);
        if items.Ok? then Ok(List(items.value)) else Thrown
  }

  /** The items of a list payload, each read strictly. */
  function DecodeAll(p: Bytes): Result<seq<Item>>
    decreases |p|, 1
  {
    if p == [] then Ok([])
    else
      var n := SizeAsEncoded(p);
      if n.Thrown? then Thrown
      else
        var head := Decode(p[..n.value]);
        var tail := DecodeAll(p[n.value..]);
        if head.Ok? && tail.Ok? then Ok([head.value] + tail.value) else Thrown
  }
}
