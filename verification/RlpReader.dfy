/**
  The lazy list reader of libdevcore/RLP.cpp: subscripts with a cached position, the item
  count and the iterator. All three are compared with splitting the payload from the front.
 */
module RlpReader {
  import opened Bytes
  import opened BigEndian
  import opened Rlp
  import opened RlpFacts

  const SizeMax := 0xffff_ffff_ffff_ffff

  /** The items of a list payload as byte strings, or an exception at the first unreadable one. */
  function Split(p: Bytes): (r: Result<seq<Bytes>>)
    ensures r.Ok? ==> |r.value| <= |p| && (p == [] <==> r.value == [])
  {
    if p == [] then Ok([])
    else
      var n := SizeAsEncoded(p);
      if n.Thrown? then Thrown
      else
        var rest := Split(p[n.value..]);
        if rest.Thrown? then Thrown else Ok([p[..n.value]] + rest.value)
  }

  /** Splitting the payload of an encoded list gives the encodings of its items. */
  lemma {:induction false} SplitEncoded(items: seq<Item>)
    requires FitsAll(items)
    ensures var r := Split(EncodeAll(items));
      && r.Ok? && |r.value| == |items|
      && forall i | 0 <= i < |items| :: Fits(items[i]) && r.value[i] == Encode(items[i])
  {
    if items != [] {
      var head, tail := Encode(items[0]), EncodeAll(items[1..]);
      SizeReadsBack(items[0], tail);
      assert EncodeAll(items) == head + tail;
      assert (head + tail)[..|head|] == head && (head + tail)[|head|..] == tail;
      SplitEncoded(items[1..]);
    }
  }

  // ---------------------------------------------------------------- subscripts

  /** The list-indexing cache; the item is empty once the index has run past the end. */
  datatype Cache = Cache(lastIndex: nat, lastEnd: nat, lastItem: Bytes)

  const Unused := Cache(SizeMax, 0, [])

  function From(p: Bytes, begin: nat): Bytes {
    if begin <= |p| then p[begin..] else []
  }

  /** The cache one step on from `c`. */
  function Next(p: Bytes, c: Cache): Cache
    requires SizeAsEncoded(From(p, c.lastEnd)).Ok?
  {
    var here := From(p, c.lastEnd);
    var n := SizeAsEncoded(here).value;
    Cache(c.lastIndex + 1, c.lastEnd + n, here[..n])
  }

  /** Steps the cache forward to index `i`; false when reading an item throws on the way. */
  function Advance(p: Bytes, c: Cache, i: nat): (Cache, bool)
    decreases i - c.lastIndex
  {
    if c.lastIndex >= i || c.lastItem == [] then (c, true)
    else if SizeAsEncoded(From(p, c.lastEnd)).Thrown? then (c.(lastItem := From(p, c.lastEnd)), false)
    else Advance(p, Next(p, c), i)
  }

  /** The item the cache points at, checked as the RLP constructor checks it. */
  function Checked(item: Bytes): Result<Bytes> {
    if SizeAsEncoded(item).Ok? then Ok(item) else Thrown
  }

  /** The cache after a subscript, and what the subscript returns; out of range is the null item. */
  function Access(d: Bytes, c: Cache, i: nat): (Cache, Result<Bytes>) {
    var payload := Payload(d);
    if payload.Thrown? then
      if i < c.lastIndex || (c.lastIndex < i && c.lastItem != []) then (c, Thrown) else (c, Checked(c.lastItem))
    else
      var p := payload.value;
      if i < c.lastIndex then
        var n := SizeAsEncoded(p);
        if n.Thrown? then (c, Thrown) else Finish(Advance(p, Cache(0, n.value, p[..n.value]), i))
      else Finish(Advance(p, c, i))
  }

  function Finish(stepped: (Cache, bool)): (Cache, Result<Bytes>) {
    (stepped.0, if stepped.1 then Checked(stepped.0.lastItem) else Thrown)
  }

  // ---------------------------------------------------------------- the iterator

  /** What the iterator designates, by position; nothing at all once a payload could not be cropped. */
  datatype Place = Nowhere | Place(at: nat, count: nat, remaining: nat)

  /** begin(), for a list. */
  function Begin(d: Bytes): Result<Place> {
    var payload := Payload(d);
    if payload.Thrown? then Thrown
    else if PayloadOffset(d) + Length(d).value > |d| then Ok(Nowhere)
    else
      var n := SizeAsEncoded(payload.value);
      if n.Thrown? then Thrown else Ok(Place(PayloadOffset(d), n.value, |payload.value| - n.value))
  }

  /** operator++. */
  function Forward(d: Bytes, here: Place): (there: Result<Place>)
    requires Inside(d, here)
    ensures there.Ok? ==> Inside(d, there.value)
  {
    if here.Nowhere? then Ok(Nowhere)
    else if here.remaining == 0 then Ok(Place(here.at + here.count, 0, 0))
    else
      var n := SizeAsEncoded(Behind(d, here));
      if n.Thrown? then Thrown else Ok(Place(here.at + here.count, n.value, here.remaining - n.value))
  }

  predicate Inside(d: Bytes, here: Place) {
    here.Place? ==> here.at + here.count + here.remaining <= |d|
  }

  function Designated(d: Bytes, here: Place): Bytes
    requires Inside(d, here)
  {
    if here.Nowhere? then [] else d[here.at..here.at + here.count]
  }

  function Behind(d: Bytes, here: Place): Bytes
    requires Inside(d, here)
  {
    if here.Nowhere? then [] else d[here.at + here.count..here.at + here.count + here.remaining]
  }

  /** Equality with end(), which designates no bytes right behind the last. */
  predicate AtEnd(d: Bytes, here: Place) {
    here.Place? && here.at == |d| && here.count == 0
  }

  /** Where the iterator is after `n` increments. */
  function Reached(d: Bytes, n: nat): (r: Result<Place>)
    ensures r.Ok? ==> Inside(d, r.value)
  {
    if n == 0 then Begin(d)
    else
      var before := Reached(d, n - 1);
      if before.Thrown? then Thrown else Forward(d, before.value)
  }

  /** Where the payload of a list lies. */
  lemma PayloadPlace(d: Bytes)
    requires IsList(d) && Payload(d).Ok?
    ensures Length(d).Ok? && ActualSize(d) == Ok(PayloadOffset(d) + Length(d).value)
    ensures var end := PayloadOffset(d) + Length(d).value;
      Payload(d).value == if end <= |d| then d[PayloadOffset(d)..end] else []
  {
  }

  /** The iterator is at the payload, or nowhere if that could not be cropped. */
  ghost predicate Within(d: Bytes, here: Place)
    requires Length(d).Ok?
  {
    var end := PayloadOffset(d) + Length(d).value;
    if end > |d| then here.Nowhere?
    else here.Place? && here.at + here.count + here.remaining == end && (here.count == 0 ==> here.remaining == 0)
  }

  lemma BeginsWithin(d: Bytes)
    requires Payload(d).Ok? && Begin(d).Ok?
    ensures Within(d, Begin(d).value)
  {
    hide Length, PayloadOffset, SizeAsEncoded;
  }

  lemma MovesWithin(d: Bytes, here: Place)
    requires Length(d).Ok? && Within(d, here) && Inside(d, here) && Forward(d, here).Ok?
    ensures Within(d, Forward(d, here).value)
  {
    hide Length, PayloadOffset, SizeAsEncoded;
  }

  /** The iterator stays within the payload, behind which it stands still. */
  lemma {:induction false} ReachedWithin(d: Bytes, n: nat)
    requires Payload(d).Ok? && Reached(d, n).Ok?
    ensures Within(d, Reached(d, n).value)
  {
    hide Length, PayloadOffset, SizeAsEncoded, Begin, Forward, Within;
    if n == 0 {
      BeginsWithin(d);
    } else {
      ReachedWithin(d, n - 1);
      MovesWithin(d, Reached(d, n - 1).value);
    }
  }

  /** While bytes are left of a payload that splits, an increment takes an item of them. */
  lemma OneFurther(d: Bytes, here: Place)
    requires Inside(d, here) && here.Place? && here.remaining > 0 && Split(Behind(d, here)).Ok?
    ensures var there := Forward(d, here);
      && there.Ok? && there.value.Place? && Split(Behind(d, there.value)).Ok?
      && there.value.count + there.value.remaining == here.remaining
  {
    hide SizeAsEncoded;
    var n := SizeAsEncoded(Behind(d, here)).value;
    assert Behind(d, here)[n..] == Behind(d, Forward(d, here).value);
  }

  lemma {:induction false} ReachesItsEnd(d: Bytes, n: nat) returns (last: nat)
    requires IsList(d) && Payload(d).Ok? && ActualSize(d) == Ok(|d|)
    requires Reached(d, n).Ok? && Split(Behind(d, Reached(d, n).value)).Ok?
    ensures Reached(d, last).Ok? && AtEnd(d, Reached(d, last).value)
    decreases var here := Reached(d, n).value; if here.Place? then here.remaining + here.count else 0
  {
    hide Length, PayloadOffset, SizeAsEncoded, Payload, ActualSize, Begin, Split, Behind;
    ReachedWithin(d, n);
    PayloadPlace(d);
    var here := Reached(d, n).value;
    assert here.Place?;
    assert Reached(d, n + 1) == Forward(d, here);
    if here.remaining == 0 {
      last := n + 1;
    } else {
      OneFurther(d, here);
      last := ReachesItsEnd(d, n + 1);
    }
  }

  /**
    A pass from begin() over a list that splits meets end() exactly if the item ends where its bytes
    do; otherwise the iterator stands still short of the end, and the pass never stops.
   */
  lemma {:induction false} EndIsMetIff(d: Bytes)
    requires IsList(d) && Payload(d).Ok? && Split(Payload(d).value).Ok?
    ensures (exists n :: Reached(d, n).Ok? && AtEnd(d, Reached(d, n).value)) <==> ActualSize(d) == Ok(|d|)
  {
    hide Length, PayloadOffset, SizeAsEncoded, Payload, ActualSize, Begin, Split, Behind, Designated;
    PayloadPlace(d);
    if ActualSize(d) == Ok(|d|) {
      BeginThrows(d);
      PassBegins(d);
      var n := ReachesItsEnd(d, 0);
    } else {
      forall n | Reached(d, n).Ok? ensures !AtEnd(d, Reached(d, n).value) {
        ReachedWithin(d, n);
      }
    }
  }

  /** A list of one byte with a byte behind it: the pass never stops. */
  lemma ByteBehindExample()
    ensures var d: Bytes := [0xc1, 0x01, 0x02];
      && IsList(d) && Payload(d) == Ok([0x01]) && Split([0x01]) == Ok([[0x01]])
      && forall n | Reached(d, n).Ok? :: !AtEnd(d, Reached(d, n).value)
  {
    var d: Bytes := [0xc1, 0x01, 0x02];
    assert d[1..2] == [0x01] && Length(d) == Ok(1);
    var p: Bytes := [0x01];
    assert SizeAsEncoded(p) == Ok(1) && p[1..] == [] && p[..1] == p && Split([]) == Ok([]);
    SplitTakes(p, 1);
    assert Pending(p) + [] == [p];
    EndIsMetIff(d);
  }

  function Pending(current: Bytes): seq<Bytes> {
    if current == [] then [] else [current]
  }

  /** A pass that has read `ret` and stands at `here` has what is left of the payload before it. */
  ghost predicate Passing(d: Bytes, here: Place, ret: seq<Bytes>) {
    && IsList(d) && Payload(d).Ok? && Inside(d, here)
    && here.Place? && here.at + here.count + here.remaining == PayloadOffset(d) + Length(d).value
    && (here.count == 0 ==> here.remaining == 0)
    && var whole, left := Split(Payload(d).value), Split(Behind(d, here));
    && (whole.Ok? <==> left.Ok?)
    && (whole.Ok? ==> ActualSize(d) == Ok(|d|) && whole.value == ret + Pending(Designated(d, here)) + left.value)
  }

  lemma BeginThrows(d: Bytes)
    ensures Begin(d).Thrown? ==> Payload(d).Thrown? || Split(Payload(d).value).Thrown?
  {
  }

  /** Splitting takes an item off the front, if there is any. */
  lemma SplitTakes(p: Bytes, n: nat)
    requires SizeAsEncoded(p) == Ok(n)
    ensures Split(p).Ok? <==> Split(p[n..]).Ok?
    ensures Split(p).Ok? ==> Split(p).value == Pending(p[..n]) + Split(p[n..]).value
    ensures Split([]) == Ok([]) && (n == 0 ==> p == [])
  {
    if p == [] { assert p[n..] == [] && p[..n] == []; }
  }

  /** What the iterator begins with is the front of the payload, if that could be cropped. */
  lemma BeginPlace(d: Bytes)
    requires IsList(d) && Begin(d).Ok?
    ensures var p, here := Payload(d).value, Begin(d).value;
      && Payload(d).Ok? && Inside(d, here)
      && (here.Nowhere? ==> p == [] && ActualSize(d) != Ok(|d|))
      && (here.Place? ==>
            && SizeAsEncoded(p) == Ok(here.count) && here.at + here.count + here.remaining == PayloadOffset(d) + Length(d).value
            && p[..here.count] == Designated(d, here) && p[here.count..] == Behind(d, here)
            && (here.count == 0 ==> here.remaining == 0))
  {
    hide Length, PayloadOffset, SizeAsEncoded, Payload, ActualSize;
    PayloadPlace(d);
  }

  lemma PassBegins(d: Bytes)
    requires IsList(d) && Begin(d).Ok? && (Split(Payload(d).value).Ok? ==> ActualSize(d) == Ok(|d|))
    ensures Passing(d, Begin(d).value, [])
  {
    hide Length, PayloadOffset, SizeAsEncoded, Payload, ActualSize, Split, Begin, Designated, Behind, Pending;
    BeginPlace(d);
    PayloadPlace(d);
    var p, here := Payload(d).value, Begin(d).value;
    NothingSplits();
    if here.Place? {
      SplitTakes(p, here.count);
      PrependNothing(Pending(Designated(d, here)));
    }
  }

  lemma NothingSplits()
    ensures Split([]) == Ok([])
  {
  }

  lemma PrependNothing(s: seq<Bytes>)
    ensures [] + s == s
  {
  }

  /** A place that is not the end has an item, and the next one has those behind it. */
  lemma ForwardPlace(d: Bytes, here: Place)
    requires here.Place? && Inside(d, here) && Forward(d, here).Ok?
    ensures var rest, there := Behind(d, here), Forward(d, here).value;
      && there.Place? && Inside(d, there) && there.count + there.remaining == here.remaining
      && (there.count == 0 ==> there.remaining == 0)
      && there.at + there.count + there.remaining == here.at + here.count + here.remaining
      && SizeAsEncoded(rest) == Ok(there.count)
      && rest[..there.count] == Designated(d, there) && rest[there.count..] == Behind(d, there)
  {
    hide Length, PayloadOffset;
    if here.remaining == 0 { assert Behind(d, here) == [] && SizeAsEncoded([]) == Ok(0); }
  }

  lemma ForwardThrows(d: Bytes, here: Place)
    requires here.Place? && Inside(d, here) && Forward(d, here).Thrown?
    ensures Split(Behind(d, here)).Thrown?
  {
    hide Length, PayloadOffset;
    assert Behind(d, here) != [];
  }

  lemma ItemAhead(d: Bytes, here: Place, ret: seq<Bytes>)
    requires Passing(d, here, ret) && !AtEnd(d, here)
    ensures here.count > 0 && Pending(Designated(d, here)) == [Designated(d, here)]
  {
    hide Length, PayloadOffset, Payload, ActualSize;
    PayloadPlace(d);
    var rest := Behind(d, here);
    assert Split([]) == Ok([]) && (here.count == 0 ==> rest == []);
  }

  lemma PassMoves(d: Bytes, here: Place, ret: seq<Bytes>)
    requires Passing(d, here, ret) && !AtEnd(d, here)
    ensures here.count > 0
    ensures var there := Forward(d, here);
      if there.Thrown? then Split(Payload(d).value).Thrown?
      else
        && Passing(d, there.value, ret + [Designated(d, here)])
        && there.value.count + there.value.remaining < here.count + here.remaining
  {
    hide Length, PayloadOffset, SizeAsEncoded, Payload, ActualSize, Split, Forward, Designated, Behind, Pending;
    ItemAhead(d, here, ret);
    var rest := Behind(d, here);
    if Forward(d, here).Thrown? {
      ForwardThrows(d, here);
    } else {
      var there := Forward(d, here).value;
      ForwardPlace(d, here);
      SplitTakes(rest, there.count);
      if Split(rest).Ok? {
        assert ret + [Designated(d, here)] + (Pending(Designated(d, there)) + Split(Behind(d, there)).value)
            == ret + [Designated(d, here)] + Pending(Designated(d, there)) + Split(Behind(d, there)).value;
      }
    }
  }

  lemma PassEnds(d: Bytes, here: Place, ret: seq<Bytes>)
    requires Passing(d, here, ret) && AtEnd(d, here)
    ensures Split(Payload(d).value) == Ok(ret)
  {
    assert Behind(d, here) == [] && Designated(d, here) == [];
    assert ret + [] + [] == ret;
  }

  /** A list value with its cache. */
  class View {
    const data: Bytes
    var cache: Cache

    constructor (d: Bytes)
      ensures data == d && cache == Unused
    {
      data := d;
      cache := Unused;
    }

    /** The loop of the subscript; false when an exception leaves it early. */
    method StepTo(p: Bytes, i: nat) returns (ok: bool)
      modifies this
      ensures (cache, ok) == Advance(p, old(cache), i)
    {
      while cache.lastIndex < i && cache.lastItem != []
        invariant Advance(p, cache, i) == Advance(p, old(cache), i)
        decreases i - cache.lastIndex
      {
        if SizeAsEncoded(From(p, cache.lastEnd)).Thrown? {
          cache := cache.(lastItem := From(p, cache.lastEnd));
          return false;
        }
        cache := Next(p, cache);
      }
      return true;
    }

    method At(i: nat) returns (r: Result<Bytes>)
      modifies this
      ensures (cache, r) == Access(data, old(cache), i)
    {
      var payload := Payload(data);
      if payload.Thrown? && (i < cache.lastIndex || (cache.lastIndex < i && cache.lastItem != [])) { return Thrown; }
      if payload.Thrown? { return Checked(cache.lastItem); }
      if i < cache.lastIndex {
        var n := SizeAsEncoded(payload.value);
        if n.Thrown? { return Thrown; }
        cache := Cache(0, n.value, payload.value[..n.value]);
      }
      var ok := StepTo(payload.value, i);
      if !ok { return Thrown; }
      return Checked(cache.lastItem);
    }

    /** RLP::length, with its loop over the length bytes. */
    method ReadLength() returns (r: Result<nat>)
      ensures r == Length(data)
    {
      if data == [] { return Ok(0); }
      if data[0] == DataStart + 1 && (|data| < 2 || data[1] < DataStart) { return Thrown; }
      var first := data[0];
      if first < DataStart { return Ok(1); }
      if first <= DataStart + IndirectZero { return Ok(first - DataStart); }
      if ListStart <= first <= ListStart + IndirectZero { return Ok(first - ListStart); }
      var lengthSize := if first < ListStart then first - DataStart - IndirectZero else first - ListStart - IndirectZero;
      if |data| <= lengthSize || data[1] == 0 { return Thrown; }
      var len, i := 0, 0;
      while i < lengthSize
        invariant 0 <= i <= lengthSize && len == Value(data[1..1 + i])
      {
        assert data[1..2 + i][..i] == data[1..1 + i];
        len := 256 * len + data[i + 1];
        i := i + 1;
      }
      if len < ImmediateCount || len >= LengthLimit { return Thrown; }
      return Ok(len);
    }

    /** RLP::items: counts the items by cropping them off the front. */
    method Items() returns (r: Result<nat>)
      ensures var p := Payload(data);
        if !IsList(data) then r == Ok(0)
        else if p.Thrown? || Split(p.value).Thrown? then r == Thrown
        else r == Ok(|Split(p.value).value|)
    {
      if !IsList(data) { return Ok(0); }
      var payload := Payload(data);
      if payload.Thrown? { return Thrown; }
      var d, i := payload.value, 0;
      while d != []
        invariant Split(payload.value).Ok? <==> Split(d).Ok?
        invariant Split(d).Ok? ==> |Split(payload.value).value| == i + |Split(d).value|
        decreases |d|
      {
        var n := SizeAsEncoded(d);
        if n.Thrown? { return Thrown; }
        d := d[n.value..];
        i := i + 1;
      }
      return Ok(i);
    }

    /** RLP::toList, driven by the iterator, on which it never stops unless end() is met. */
    method ToList() returns (r: Result<seq<Bytes>>)
      requires IsList(data) && Payload(data).Ok? && Split(Payload(data).value).Ok? ==> ActualSize(data) == Ok(|data|)
      ensures var p := Payload(data);
        if !IsList(data) then r == Ok([])
        else if p.Thrown? then r == Thrown
        else r == Split(p.value)
    {
      if !IsList(data) { return Ok([]); }
      hide Split, Behind, Forward, Passing, SizeAsEncoded, Length;
      var begin := Begin(data);
      if begin.Thrown? {
        BeginThrows(data);
        return Thrown;
      }
      var here, ret := begin.value, [];
      PassBegins(data);
      while !AtEnd(data, here)
        invariant Passing(data, here, ret)
        decreases if here.Place? then here.count + here.remaining else 0
      {
        PassMoves(data, here, ret);
        ret := ret + [Designated(data, here)];
        var next := Forward(data, here);
        if next.Thrown? { return Thrown; }
        here := next.value;
      }
      PassEnds(data, here, ret);
      return Ok(ret);
    }
  }

  // ---------------------------------------------------------------- any order of access

  /** The items readable from the front, and what is left: nothing, or an unreadable rest. */
  function Front(p: Bytes): (r: (seq<Bytes>, Bytes))
    ensures r.1 != [] ==> SizeAsEncoded(r.1).Thrown?
    ensures |r.0| <= |p|
  {
    if p == [] || SizeAsEncoded(p).Thrown? then ([], p)
    else
      var n := SizeAsEncoded(p).value;
      var rest := Front(p[n..]);
      ([p[..n]] + rest.0, rest.1)
  }

  lemma {:induction false} SplitIsFront(p: Bytes)
    ensures Split(p) == if Front(p).1 == [] then Ok(Front(p).0) else Thrown
  {
    if p != [] && SizeAsEncoded(p).Ok? {
      SplitIsFront(p[SizeAsEncoded(p).value..]);
    }
  }

  /** What a subscript must answer: the item, null past the end, or an exception past an unreadable one. */
  function Nth(p: Bytes, i: nat): Result<Bytes> {
    if i < |Front(p).0| then Ok(Front(p).0[i]) else if Front(p).1 == [] then Ok([]) else Thrown
  }

  /** The bytes the first `n` items take up. */
  function Extent(parts: seq<Bytes>, n: nat): nat
    requires n <= |parts|
  {
    if n == 0 then 0 else Extent(parts, n - 1) + |parts[n - 1]|
  }

  /** The cache points at some item, or just past the last one when all were readable. */
  ghost predicate Pointing(p: Bytes, c: Cache) {
    PointsAt(Front(p).0, c) || (Front(p).1 == [] && PointsPast(Front(p).0, c))
  }

  ghost predicate PointsAt(parts: seq<Bytes>, c: Cache) {
    c.lastIndex < |parts| && c.lastItem == parts[c.lastIndex] && c.lastEnd == Extent(parts, c.lastIndex + 1)
  }

  ghost predicate PointsPast(parts: seq<Bytes>, c: Cache) {
    c.lastIndex == |parts| && c.lastItem == [] && c.lastEnd == Extent(parts, |parts|)
  }

  /** The cache a subscript leaves behind when it throws at the unreadable rest. */
  function Spoilt(p: Bytes): Cache
    requires Front(p).0 != []
  {
    Cache(|Front(p).0| - 1, Extent(Front(p).0, |Front(p).0|), Front(p).1)
  }

  /** After the first `n` items the rest of the payload holds the remaining ones. */
  lemma {:induction false} FrontAfter(p: Bytes, n: nat)
    requires n <= |Front(p).0|
    ensures var (parts, rest) := Front(p);
      && Extent(parts, n) <= |p| && Front(p[Extent(parts, n)..]) == (parts[n..], rest)
  {
    var parts := Front(p).0;
    if n == 0 {
      assert p[0..] == p && parts[0..] == parts;
    } else {
      FrontAfter(p, n - 1);
      var here := p[Extent(parts, n - 1)..];
      var size := SizeAsEncoded(here).value;
      assert parts[n - 1..][0] == parts[n - 1] == here[..size];
      assert here[size..] == p[Extent(parts, n)..];
      assert parts[n - 1..][1..] == parts[n..];
    }
  }

  /** The announced size depends only on the bytes it covers. */
  lemma OwnSize(d: Bytes, n: nat)
    requires d != [] && SizeAsEncoded(d) == Ok(n)
    ensures n <= |d| && SizeAsEncoded(d[..n]) == Ok(n)
  {
    var e := d[..n];
    assert e[0] == d[0];
    if d[0] >= DataStart {
      var offset := PayloadOffset(d);
      if offset > 1 { assert e[1..offset] == d[1..offset] && e[1] == d[1]; }
      if d[0] == DataStart + 1 { assert e[1] == d[1]; }
    }
  }

  /** Each item is what stands at its place, is not empty, and passes the constructor's check. */
  lemma {:induction false} ItemInPlace(p: Bytes, n: nat)
    requires n < |Front(p).0|
    ensures var parts := Front(p).0;
      && Extent(parts, n) <= |p| && SizeAsEncoded(p[Extent(parts, n)..]) == Ok(|parts[n]|)
      && p[Extent(parts, n)..][..|parts[n]|] == parts[n]
      && parts[n] != [] && Checked(parts[n]) == Ok(parts[n])
  {
    var parts := Front(p).0;
    FrontAfter(p, n);
    assert parts[n..][0] == parts[n];
    var here := p[Extent(parts, n)..];
    OwnSize(here, SizeAsEncoded(here).value);
  }

  /** One step from an item to the item after it. */
  lemma {:induction false} StepWithin(p: Bytes, c: Cache)
    requires Pointing(p, c) && c.lastIndex + 1 < |Front(p).0|
    ensures SizeAsEncoded(From(p, c.lastEnd)).Ok? && Pointing(p, Next(p, c))
  {
    var parts := Front(p).0;
    ItemInPlace(p, c.lastIndex + 1);
    assert Extent(parts, c.lastIndex + 2) == Extent(parts, c.lastIndex + 1) + |parts[c.lastIndex + 1]|;
  }

  /** One step from the last readable item: past the end, or into the unreadable rest. */
  lemma {:induction false} StepPast(p: Bytes, c: Cache)
    requires Pointing(p, c) && c.lastIndex + 1 == |Front(p).0|
    ensures From(p, c.lastEnd) == Front(p).1
    ensures SizeAsEncoded(From(p, c.lastEnd)).Ok? <==> Front(p).1 == []
    ensures Front(p).1 == [] ==> Pointing(p, Next(p, c))
  {
    hide Front, SizeAsEncoded;
    var parts := Front(p).0;
    FrontAfter(p, |parts|);
    assert parts[|parts|..] == [];
    FrontIsBare(From(p, c.lastEnd));
  }

  /** Bytes without a readable item at their front are empty or unreadable. */
  lemma FrontIsBare(p: Bytes)
    requires Front(p).0 == []
    ensures p == Front(p).1 && (SizeAsEncoded(p).Ok? <==> p == []) && (p == [] ==> SizeAsEncoded(p) == Ok(0))
  {
  }

  /** Stepping on from a cache that points at an item. */
  lemma {:induction false} AdvanceFollows(p: Bytes, c: Cache, i: nat)
    requires Pointing(p, c) && c.lastIndex <= i
    ensures var stepped := Advance(p, c, i);
      && (stepped.1 <==> Nth(p, i).Ok?)
      && (stepped.1 ==> Pointing(p, stepped.0) && stepped.0.lastItem == Nth(p, i).value)
      && (!stepped.1 ==> Front(p).0 != [] && stepped.0 == Spoilt(p))
    decreases i - c.lastIndex
  {
    if c.lastIndex < |Front(p).0| {
      ItemInPlace(p, c.lastIndex);
      if c.lastIndex < i {
        assert c.lastItem != [];
        if c.lastIndex + 1 < |Front(p).0| {
          StepWithin(p, c);
          AdvanceFollows(p, Next(p, c), i);
        } else {
          StepPast(p, c);
          if Front(p).1 == [] { AdvanceFollows(p, Next(p, c), i); }
        }
      }
    }
  }

  /** The first step of a subscript that has to start over. */
  lemma {:induction false} StartPoints(p: Bytes)
    requires SizeAsEncoded(p).Ok?
    ensures Pointing(p, Cache(0, SizeAsEncoded(p).value, p[..SizeAsEncoded(p).value]))
  {
    if p != [] {
      FrontAfter(p, 0);
      assert Extent(Front(p).0, 1) == |Front(p).0[0]|;
    }
  }

  /** What a finished step returns, once the cache points where it should. */
  lemma {:induction false} FinishFollows(p: Bytes, c: Cache, i: nat)
    requires Pointing(p, c) && c.lastIndex <= i
    ensures var access := Finish(Advance(p, c, i));
      && access.1 == Nth(p, i)
      && (access.1.Ok? ==> Pointing(p, access.0))
      && (access.1.Thrown? ==> Front(p).0 != [] && access.0 == Spoilt(p))
  {
    AdvanceFollows(p, c, i);
    if i < |Front(p).0| { ItemInPlace(p, i); }
  }

  /** From a fresh or pointing cache a subscript answers as the payload demands. */
  lemma {:induction false} AccessFollows(d: Bytes, c: Cache, i: nat)
    requires Payload(d).Ok? && SizeAsEncoded(Payload(d).value).Ok?
    requires c == Unused || Pointing(Payload(d).value, c)
    requires i < 0xffff_ffff_ffff_ffff && |d| < 0xffff_ffff_ffff_ffff
    ensures var p := Payload(d).value;
      var access := Access(d, c, i);
      && access.1 == Nth(p, i)
      && (access.1.Ok? ==> Pointing(p, access.0))
      && (access.1.Thrown? ==> Front(p).0 != [] && access.0 == Spoilt(p))
  {
    var p := Payload(d).value;
    if i < c.lastIndex {
      StartPoints(p);
      FinishFollows(p, Cache(0, SizeAsEncoded(p).value, p[..SizeAsEncoded(p).value]), i);
    } else {
      FinishFollows(p, c, i);
    }
  }

  /** The cache after a run of subscripts. */
  function Run(d: Bytes, accesses: seq<nat>): Cache {
    if accesses == [] then Unused
    else Access(d, Run(d, accesses[..|accesses| - 1]), accesses[|accesses| - 1]).0
  }

  predicate InRange(accesses: seq<nat>) {
    forall i | 0 <= i < |accesses| :: accesses[i] < 0xffff_ffff_ffff_ffff
  }

  /** Every subscript answers, after any run of subscripts, what it would have answered first. */
  ghost predicate OrderFree(d: Bytes) {
    forall accesses: seq<nat>, i: nat | InRange(accesses) && i < 0xffff_ffff_ffff_ffff ::
      Access(d, Run(d, accesses), i).1 == Access(d, Unused, i).1
  }

  lemma {:induction false} RunPoints(d: Bytes, accesses: seq<nat>)
    requires Payload(d).Ok? && Split(Payload(d).value).Ok? && |d| < 0xffff_ffff_ffff_ffff && InRange(accesses)
    ensures Run(d, accesses) == Unused || Pointing(Payload(d).value, Run(d, accesses))
  {
    if accesses != [] {
      var front := accesses[..|accesses| - 1];
      RunPoints(d, front);
      SplitIsFront(Payload(d).value);
      AccessFollows(d, Run(d, front), accesses[|accesses| - 1]);
    }
  }

  /** Where there is no payload, or no item at its front, every subscript throws, whatever came before. */
  lemma {:induction false} NothingIsRead(d: Bytes, accesses: seq<nat>, i: nat)
    requires InRange(accesses) && i < 0xffff_ffff_ffff_ffff
    requires Payload(d).Thrown? || SizeAsEncoded(Payload(d).value).Thrown?
    ensures Run(d, accesses) == Unused && Access(d, Unused, i) == (Unused, Thrown)
  {
    if accesses != [] { NothingIsRead(d, accesses[..|accesses| - 1], accesses[|accesses| - 1]); }
  }

  /** The largest subscript of all is that of the unused cache: it gives the null item, whatever the bytes. */
  lemma LargestIsNull(d: Bytes)
    ensures Access(d, Unused, 0xffff_ffff_ffff_ffff) == (Unused, Ok([]))
  {
  }

  /** A subscript that throws behind a readable item makes that item unreadable. */
  lemma {:induction false} ThrowSpoilsLastItem(d: Bytes)
    requires Payload(d).Ok? && |d| < 0xffff_ffff_ffff_ffff
    requires SizeAsEncoded(Payload(d).value).Ok? && Split(Payload(d).value).Thrown?
    ensures var n := |Front(Payload(d).value).0|;
      && n >= 1
      && Access(d, Unused, n).1 == Thrown
      && Access(d, Unused, n - 1).1.Ok?
      && Access(d, Run(d, [n]), n - 1).1 == Thrown
  {
    var p := Payload(d).value;
    SplitIsFront(p);
    var n := |Front(p).0|;
    AccessFollows(d, Unused, n);
    AccessFollows(d, Unused, n - 1);
    assert [n][..0] == [];
    assert Run(d, [n]) == Access(d, Unused, n).0 == Spoilt(p);
  }

  /** A list of two bytes: the item 1, and the header of an item of two bytes that are missing. */
  lemma ShortItemExample()
    ensures var d: Bytes := [0xc2, 0x01, 0x82];
      && Access(d, Unused, 0).1 == Ok([0x01])
      && Access(d, Unused, 1).1 == Thrown
      && Access(d, Run(d, [1]), 0).1 == Thrown
  {
    var d: Bytes := [0xc2, 0x01, 0x82];
    var p: Bytes := [0x01, 0x82];
    assert Length(d) == Ok(2) && d[1..3] == p;
    assert Payload(d) == Ok(p) && SizeAsEncoded(p) == Ok(1);
    assert ActualSize([0x82]) == Ok(3);
    assert p[..1] == [0x01] && p[1..] == [0x82] && SizeAsEncoded([0x82]).Thrown?;
    assert Front([0x82]) == ([], [0x82]) && Split([0x82]).Thrown?;
    assert Front(p).1 == Front([0x82]).1;
    assert Front(p).0 == [p[..1]] + Front([0x82]).0 == [[0x01]];
    assert Split(p).Thrown? && Front(p) == ([[0x01]], [0x82]);
    ThrowSpoilsLastItem(d);
    AccessFollows(d, Unused, 0);
  }

  /**
    Subscripts of a list may be used in any order exactly when the whole list splits into items,
    or not even its first item can be read.
   */
  lemma {:induction false} OrderFreeIff(d: Bytes)
    requires IsList(d) && Payload(d).Ok? && |d| < 0xffff_ffff_ffff_ffff
    ensures OrderFree(d) <==> Split(Payload(d).value).Ok? || SizeAsEncoded(Payload(d).value).Thrown?
  {
    var p := Payload(d).value;
    SplitIsFront(p);
    if Split(p).Ok? {
      forall accesses: seq<nat>, i: nat | InRange(accesses) && i < 0xffff_ffff_ffff_ffff
        ensures Access(d, Run(d, accesses), i).1 == Access(d, Unused, i).1
      {
        RunPoints(d, accesses);
        AccessFollows(d, Run(d, accesses), i);
        AccessFollows(d, Unused, i);
      }
    } else if SizeAsEncoded(p).Thrown? {
      forall accesses: seq<nat>, i: nat | InRange(accesses) && i < 0xffff_ffff_ffff_ffff
        ensures Access(d, Run(d, accesses), i).1 == Access(d, Unused, i).1
      {
        NothingIsRead(d, accesses, i);
      }
    } else {
      ThrowSpoilsLastItem(d);
      var n := |Front(p).0|;
      assert InRange([n]) && n - 1 < 0xffff_ffff_ffff_ffff;
      assert Access(d, Run(d, [n]), n - 1).1 != Access(d, Unused, n - 1).1;
    }
  }

  /** Subscripts, in any order, and the iterator agree on the items of an encoded list. */
  lemma {:induction false} ReadersAgree(items: seq<Item>, accesses: seq<nat>, i: nat)
    requires Fits(List(items)) && InRange(accesses) && i < 0xffff_ffff_ffff_ffff
    requires Size(List(items)) < 0xffff_ffff_ffff_ffff
    ensures var d := Encode(List(items));
      && IsList(d) && Payload(d) == Ok(EncodeAll(items))
      && Split(EncodeAll(items)).Ok? && |Split(EncodeAll(items)).value| == |items|
      && Access(d, Run(d, accesses), i).1 == Ok(if i < |items| then Split(EncodeAll(items)).value[i] else [])
      && (i < |items| ==> Fits(items[i]) && Split(EncodeAll(items)).value[i] == Encode(items[i]))
  {
    var d, p := Encode(List(items)), EncodeAll(items);
    PayloadReadsBack(List(items));
    SplitEncoded(items);
    SplitIsFront(p);
    RunPoints(d, accesses);
    AccessFollows(d, Run(d, accesses), i);
  }
}
