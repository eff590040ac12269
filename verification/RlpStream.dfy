/**
  The writer of libdevcore/RLP.cpp. A list header is inserted only when the last of the list's
  items has been appended, by shifting the bytes written since the list was opened; one append
  may close several lists. The writer is compared with a value that keeps each open list apart.
 */
module RlpStream {
  import opened Bytes
  import opened BigEndian
  import opened Rlp

  /** An open list: how many items it still wants, and the encodings of those it has. */
  datatype Frame = Frame(remaining: nat, content: Bytes)

  /** Everything written outside any open list, and the open lists from the outside in. */
  datatype Writer = Writer(done: Bytes, open: seq<Frame>)

  const Fresh := Writer([], [])

  function Top(w: Writer): Frame
    requires w.open != []
  {
    w.open[|w.open| - 1]
  }

  function Below(w: Writer): Writer
    requires w.open != []
  {
    Writer(w.done, w.open[..|w.open| - 1])
  }

  /** Bytes placed after everything written so far, not yet counted as an item. */
  function Put(w: Writer, b: Bytes): Writer {
    if w.open == [] then Writer(w.done + b, [])
    else Writer(w.done, w.open[..|w.open| - 1] + [Frame(Top(w).remaining, Top(w).content + b)])
  }

  /** Counts `n` items into the innermost list and closes every list this completes. */
  function Note(w: Writer, n: nat): Result<Writer>
    decreases |w.open|
  {
    if n == 0 || w.open == [] then Ok(w)
    else if Top(w).remaining < n then Thrown
    else if Top(w).remaining > n then
      Ok(Writer(w.done, w.open[..|w.open| - 1] + [Frame(Top(w).remaining - n, Top(w).content)]))
    else if !Announceable(|Top(w).content|) then Thrown
    else Note(Put(Below(w), Header(ListStart, |Top(w).content|) + Top(w).content), 1)
  }

  /** Appends `b`, which stands for `n` items. */
  function Absorb(w: Writer, b: Bytes, n: nat): Result<Writer> {
    Note(Put(w, b), n)
  }

  /** RLPStream::appendList: opens a list of `n` items; an empty one is complete at once. */
  function Open(w: Writer, n: nat): Result<Writer> {
    if n == 0 then Absorb(w, [ListStart], 1) else Ok(Writer(w.done, w.open + [Frame(n, [])]))
  }

  /** Appending `x` the way a caller does: strings as strings, lists as a count and then the items. */
  function Feed(w: Writer, x: Item): Result<Writer>
    decreases x, 0
  {
    match x
    case Data(b) =>
      if |b| == 1 && b[0] < DataStart then Absorb(w, b, 1)
      else if Announceable(|b|) then Absorb(w, Header(DataStart, |b|) + b, 1)
      else Thrown
    case List(items) =>
      var w' := Open(w, |items|);
      if w'.Thrown? then Thrown else FeedAll(w'.value, items)
  }

  function FeedAll(w: Writer, items: seq<Item>): Result<Writer>
    decreases items, 1
  {
    if items == [] then Ok(w)
    else
      var w' := Feed(w, items[0]);
      if w'.Thrown? then Thrown else FeedAll(w'.value, items[1..])
  }

  /** Feeding an item has the effect of appending its recursive encoding as one item. */
  lemma {:induction false} FeedIsEncode(w: Writer, x: Item)
    requires Fits(x)
    ensures Feed(w, x) == Absorb(w, Encode(x), 1)
    decreases x, 0
  {
    match x
    case Data(b) => LimitIsEightBytes(|b|);
    case List(items) =>
      LimitIsEightBytes(SizeAll(items));
      if items == [] {
        assert Header(ListStart, 0) + [] == [ListStart];
        assert SizeAll(items) == 0 && EncodeAll(items) == [];
        assert Encode(x) == [ListStart];
      } else {
        var w' := Open(w, |items|).value;
        assert Below(w') == w && Top(w') == Frame(|items|, []);
        FeedAllFills(w', items);
        assert [] + EncodeAll(items) == EncodeAll(items);
      }
  }

  /** The effect of completing the innermost list of `w` with the bytes `b`. */
  function Closed(w: Writer, b: Bytes): Result<Writer>
    requires w.open != [] && Announceable(|Top(w).content + b|)
  {
    Absorb(Below(w), Header(ListStart, |Top(w).content + b|) + (Top(w).content + b), 1)
  }

  lemma LastItemCloses(w: Writer, b: Bytes)
    requires w.open != [] && Top(w).remaining == 1 && Announceable(|Top(w).content + b|)
    ensures Absorb(w, b, 1) == Closed(w, b)
  {
    var full := Put(w, b);
    assert Below(full) == Below(w) && Top(full) == Frame(1, Top(w).content + b);
  }

  lemma EarlierItemStays(w: Writer, b: Bytes, c: Bytes)
    requires w.open != [] && Top(w).remaining > 1 && Announceable(|Top(w).content + (b + c)|)
    ensures var r := Absorb(w, b, 1);
      && r.Ok? && r.value.open != [] && Below(r.value) == Below(w)
      && Top(r.value) == Frame(Top(w).remaining - 1, Top(w).content + b)
      && Announceable(|Top(r.value).content + c|)
      && Closed(r.value, c) == Closed(w, b + c)
  {
    var full := Put(w, b);
    assert Below(full) == Below(w) && Top(full) == Frame(Top(w).remaining, Top(w).content + b);
    assert Top(w).content + (b + c) == (Top(w).content + b) + c;
  }

  /** Feeding the items a list still wants closes it around what it had and their encodings. */
  lemma {:induction false} FeedAllFills(w: Writer, items: seq<Item>)
    requires w.open != [] && items != [] && Top(w).remaining == |items|
    requires FitsAll(items) && |Top(w).content| + SizeAll(items) < LengthLimit
    ensures Announceable(|Top(w).content + EncodeAll(items)|)
    ensures FeedAll(w, items) == Closed(w, EncodeAll(items))
    decreases items, 1
  {
    LimitIsEightBytes(|Top(w).content| + SizeAll(items));
    FeedIsEncode(w, items[0]);
    var head, tail := Encode(items[0]), EncodeAll(items[1..]);
    assert EncodeAll(items) == head + tail;
    if |items| == 1 {
      assert items[1..] == [] && head + tail == head;
      LastItemCloses(w, head);
    } else {
      EarlierItemStays(w, head, tail);
      FeedAllFills(Feed(w, items[0]).value, items[1..]);
    }
  }

  // ---------------------------------------------------------------- the writer object

  /** What a buffer and a list stack stand for. */
  function Abstract(out: Bytes, stack: seq<(nat, nat)>): Writer
    decreases |stack|
  {
    if stack == [] then Writer(out, [])
    else
      var (remaining, begin) := stack[|stack| - 1];
      if begin <= |out| then
        var outer := Abstract(out[..begin], stack[..|stack| - 1]);
        Writer(outer.done, outer.open + [Frame(remaining, out[begin..])])
      else Writer(out, [])
  }

  /** List offsets lie inside the buffer and do not decrease; every open list wants an item. */
  predicate Nested(out: Bytes, stack: seq<(nat, nat)>)
    decreases |stack|
  {
    stack == [] ||
    (&& stack[|stack| - 1].0 >= 1 && stack[|stack| - 1].1 <= |out|
     && Nested(out[..stack[|stack| - 1].1], stack[..|stack| - 1]))
  }

  lemma {:induction false} AbstractKeepsDepth(out: Bytes, stack: seq<(nat, nat)>)
    requires Nested(out, stack)
    ensures |Abstract(out, stack).open| == |stack|
    decreases |stack|
  {
    if stack != [] {
      AbstractKeepsDepth(out[..stack[|stack| - 1].1], stack[..|stack| - 1]);
    }
  }

  /** Bytes at the end of the buffer belong to the innermost list. */
  lemma PutIsAppend(out: Bytes, stack: seq<(nat, nat)>, b: Bytes)
    requires Nested(out, stack)
    ensures Nested(out + b, stack) && Abstract(out + b, stack) == Put(Abstract(out, stack), b)
  {
    AbstractKeepsDepth(out, stack);
    if stack != [] {
      var begin := stack[|stack| - 1].1;
      assert (out + b)[..begin] == out[..begin] && (out + b)[begin..] == out[begin..] + b;
      var outer := Abstract(out[..begin], stack[..|stack| - 1]);
      var w := Abstract(out, stack);
      assert w.open[..|w.open| - 1] == outer.open;
    }
  }

  function Zeros(n: nat): (z: Bytes)
    ensures |z| == n
  {
    seq(n, _ => 0)
  }

  class Stream {
    var out: Bytes
    var listStack: seq<(nat, nat)>

    predicate Valid()
      reads this
    {
      Nested(out, listStack)
    }

    function State(): Writer
      reads this
    {
      Abstract(out, listStack)
    }

    constructor ()
      ensures Valid() && State() == Fresh
    {
      out := [];
      listStack := [];
    }

    /** RLPStream::pushInt: makes room for `br` bytes and fills them from the last one backwards. */
    method PushInt(n: nat, br: nat)
      requires br == |Shortest(n)|
      modifies this`out
      ensures out == old(out) + Shortest(n)
    {
      var start := |out|;
      out := out + Zeros(br);
      var b, rest := |out| - 1, n;
      while rest != 0
        invariant |out| == start + br && out[..start] == old(out)
        invariant b == start + |Shortest(rest)| - 1 && |Shortest(rest)| <= br
        invariant Shortest(n) == Shortest(rest) + out[b + 1..]
        decreases rest
      {
        ghost var tail := out[b + 1..];
        out := out[b := rest % 256];
        assert out[b..] == [rest % 256] + tail;
        b := b - 1;
        rest := rest / 256;
      }
      assert out == out[..start] + out[start..];
    }

    /** RLPStream::pushCount. */
    method PushCount(count: nat, start: Byte) returns (ok: bool)
      requires count >= ImmediateCount && Announceable(count) && (start == DataStart || start == ListStart)
      modifies this`out
      ensures ok && out == old(out) + Header(start, count)
    {
      var br := BytesRequired(count);
      if br + start + IndirectZero > 0xff { return false; }
      ghost var was := out;
      out := out + [br + start + IndirectZero];
      PushInt(count, br);
      assert out == was + ([br + start + IndirectZero] + Shortest(count));
      return true;
    }

    /** Grows the buffer and moves everything from `begin` on to its end. */
    method OpenGap(begin: nat, size: nat)
      requires begin <= |out|
      modifies this`out
      ensures |out| == |old(out)| + size
      ensures out[..begin] == old(out)[..begin] && out[begin + size..] == old(out)[begin..]
    {
      var os := |out|;
      out := out + Zeros(size);
      out := out[..begin + size] + out[begin..os];
    }

    /** Writes the header of the list that began at `begin` in front of its bytes. */
    method InsertHeader(begin: nat) returns (ok: bool)
      requires begin <= |out|
      modifies this`out
      ensures ok <==> Announceable(|old(out)| - begin)
      ensures ok ==> out == old(out)[..begin] + (Header(ListStart, |old(out)| - begin) + old(out)[begin..])
    {
      hide Shortest;
      var s := |out| - begin;
      var brs := BytesRequired(s);
      if s < ImmediateCount {
        ShortIsAnnounceable(s);
        OpenGap(begin, 1);
        out := out[begin := ListStart + s];
        SplitAtGap(out, begin, [ListStart + s]);
        return true;
      }
      ok := InsertLongHeader(begin, s, brs);
    }

    /** The header of a list whose length takes `brs` bytes. */
    method InsertLongHeader(begin: nat, s: nat, brs: nat) returns (ok: bool)
      requires begin <= |out| && s == |out| - begin >= ImmediateCount && brs == |Shortest(s)|
      modifies this`out
      ensures ok <==> Announceable(s)
      ensures ok ==> out == old(out)[..begin] + (Header(ListStart, s) + old(out)[begin..])
    {
      hide Shortest;
      OpenGap(begin, 1 + brs);
      if ListStart + IndirectZero + brs > 0xff { return false; }
      out := out[begin := ListStart + IndirectZero + brs];
      FillLength(begin, s, brs);
      SplitAtGap(out, begin, Header(ListStart, s));
      return true;
    }

    /** The loop of noteAppended that writes the length bytes behind the header byte. */
    method FillLength(begin: nat, s: nat, brs: nat)
      requires brs == |Shortest(s)| && begin + 1 + brs <= |out|
      modifies this`out
      ensures |out| == |old(out)| && out[..begin + 1] == old(out)[..begin + 1]
      ensures out[begin + 1..begin + 1 + brs] == Shortest(s)
      ensures out[begin + 1 + brs..] == old(out)[begin + 1 + brs..]
    {
      var b, rest := begin + brs, s;
      var end := begin + 1 + brs;
      while rest != 0
        invariant |out| == |old(out)| && out[..begin + 1] == old(out)[..begin + 1] && out[end..] == old(out)[end..]
        invariant b == begin + |Shortest(rest)| && |Shortest(rest)| <= brs
        invariant Shortest(s) == Shortest(rest) + out[b + 1..end]
        decreases rest
      {
        ghost var tail := out[b + 1..end];
        out := out[b := rest % 256];
        assert out[b..end] == [rest % 256] + tail;
        b := b - 1;
        rest := rest / 256;
      }
    }

    /** RLPStream::noteAppended. False stands for the exceptions it throws. */
    method NoteAppended(count: nat) returns (ok: bool)
      requires Valid()
      modifies this
      ensures ok <==> Note(old(State()), count).Ok?
      ensures ok ==> Valid() && State() == Note(old(State()), count).value
    {
      hide Header, Put, Abstract, Nested, Announceable;
      if count == 0 { return true; }
      var n := count;
      while listStack != []
        invariant Valid() && n >= 1
        invariant Note(State(), n) == Note(old(State()), count)
        decreases |listStack|
      {
        hide Note;
        var (remaining, begin) := listStack[|listStack| - 1];
        NoteAtTop(out, listStack, n);
        if remaining < n { return false; }
        if remaining > n {
          listStack := listStack[..|listStack| - 1] + [(remaining - n, begin)];
          return true;
        }
        listStack := listStack[..|listStack| - 1];
        var announced := InsertHeader(begin);
        if !announced { return false; }
        n := 1;
      }
      NoteAtBottom(out, n);
      return true;
    }

    /** RLPStream::appendRaw: bytes that already are `count` encoded items. */
    method AppendRaw(b: Bytes, count: nat) returns (ok: bool)
      requires Valid()
      modifies this
      ensures ok <==> Absorb(old(State()), b, count).Ok?
      ensures ok ==> Valid() && State() == Absorb(old(State()), b, count).value
    {
      PutIsAppend(out, listStack, b);
      out := out + b;
      ok := NoteAppended(count);
    }

    /** The header of a string of `len` bytes, a size that fits in 64 bits. */
    method PushHeader(len: nat) returns (ok: bool)
      requires Announceable(len)
      modifies this`out
      ensures ok && out == old(out) + Header(DataStart, len)
    {
      if len < ImmediateCount {
        ShortIsAnnounceable(len);
        out := out + [len + DataStart];
        ok := true;
      } else {
        ok := PushCount(len, DataStart);
      }
    }

    /** Counts the bytes appended since `was` as one item. */
    method NoteItem(ghost was: Bytes, ghost b: Bytes) returns (ok: bool)
      requires Nested(was, listStack) && out == was + b
      modifies this
      ensures ok <==> Absorb(Abstract(was, old(listStack)), b, 1).Ok?
      ensures ok ==> Valid() && State() == Absorb(Abstract(was, old(listStack)), b, 1).value
    {
      PutIsAppend(was, listStack, b);
      ok := NoteAppended(1);
    }

    /** RLPStream::append for strings; `compact` drops leading zero bytes first. */
    method Append(s: Bytes, compact: bool) returns (ok: bool)
      requires Valid() && Announceable(|s|) && Announceable(|Stripped(s)|)
      modifies this
      ensures var d := Data(if compact then Stripped(s) else s);
        && (ok <==> Feed(old(State()), d).Ok?)
        && (ok ==> Valid() && State() == Feed(old(State()), d).value)
    {
      var d := s;
      if compact { d := DropZeros(s); }
      ghost var was := out;
      if |d| == 1 && d[0] < DataStart {
        out := out + d;
        ok := NoteItem(was, d);
      } else {
        ok := PushHeader(|d|);
        if !ok { return; }
        out := out + d;
        assert out == was + (Header(DataStart, |d|) + d);
        ok := NoteItem(was, Header(DataStart, |d|) + d);
      }
    }

    /** RLPStream::append for integers: the shortest big-endian form as a string. */
    method AppendInt(i: nat) returns (ok: bool)
      requires Valid() && Announceable(|Shortest(i)|)
      modifies this
      ensures var d := Data(Shortest(i));
        && (ok <==> Feed(old(State()), d).Ok?)
        && (ok ==> Valid() && State() == Feed(old(State()), d).value)
    {
      ghost var was := out;
      ByteForms(i);
      if i == 0 {
        out := out + [DataStart];
        ok := NoteItem(was, [DataStart]);
      } else if i < DataStart {
        out := out + [i];
        ok := NoteItem(was, [i]);
      } else {
        var br := BytesRequired(i);
        ok := PushHeader(br);
        if !ok { return; }
        PushInt(i, br);
        assert out == was + (Header(DataStart, br) + Shortest(i));
        ok := NoteItem(was, Header(DataStart, br) + Shortest(i));
      }
    }

    /** RLPStream::appendList. */
    method AppendList(items: nat) returns (ok: bool)
      requires Valid()
      modifies this
      ensures ok <==> Open(old(State()), items).Ok?
      ensures ok ==> Valid() && State() == Open(old(State()), items).value
    {
      if items != 0 {
        ghost var outer := listStack;
        listStack := listStack + [(items, |out|)];
        assert listStack[..|listStack| - 1] == outer && out[..|out|] == out && out[|out|..] == [];
        ok := true;
      } else {
        assert [ListStart] + [] == [ListStart];
        ok := AppendRaw([ListStart], 1);
      }
    }

    /** Appends a nested item with the calls above: a count for each list, then its items. */
    method AppendItem(x: Item) returns (ok: bool)
      requires Valid() && Fits(x)
      modifies this
      ensures ok <==> Feed(old(State()), x).Ok?
      ensures ok ==> Valid() && State() == Feed(old(State()), x).value
      decreases x
    {
      match x {
        case Data(b) =>
          LimitIsEightBytes(|b|);
          StrippedIsShorter(b);
          LimitIsEightBytes(|Stripped(b)|);
          ok := Append(b, false);
        case List(items) =>
          ok := AppendList(|items|);
          if !ok { return false; }
          ghost var begun := State();
          var i := 0;
          while i < |items|
            invariant 0 <= i <= |items| && Valid() && FitsAll(items[i..])
            invariant FeedAll(State(), items[i..]) == FeedAll(begun, items)
          {
            assert items[i..][0] == items[i] && items[i..][1..] == items[i + 1..];
            ok := AppendItem(items[i]);
            if !ok { return false; }
            i := i + 1;
          }
          assert items[i..] == [];
      }
    }

    /** RLPStream::out: throws while a list is still open. */
    method Out() returns (r: Result<Bytes>)
      requires Valid()
      ensures r == if State().open == [] then Ok(State().done) else Thrown
    {
      AbstractKeepsDepth(out, listStack);
      if listStack != [] { return Thrown; }
      return Ok(out);
    }
  }

  /** dev::rlp and the nested list writers: a fresh stream, one item, and its bytes. */
  method Write(x: Item) returns (r: Result<Bytes>)
    requires Fits(x)
    ensures r == Ok(Encode(x))
  {
    var s := new Stream();
    FeedIsEncode(Fresh, x);
    var ok := s.AppendItem(x);
    assert [] + Encode(x) == Encode(x);
    r := s.Out();
  }

  function Stripped(s: Bytes): Bytes {
    if s != [] && s[0] == 0 then Stripped(s[1..]) else s
  }

  lemma StrippedIsShorter(s: Bytes)
    ensures |Stripped(s)| <= |s|
  {
  }

  /** The loop of append that skips leading zero bytes. */
  method DropZeros(s: Bytes) returns (d: Bytes)
    ensures d == Stripped(s)
  {
    d := s;
    while d != [] && d[0] == 0
      invariant Stripped(d) == Stripped(s)
    {
      d := d[1..];
    }
  }

  /** How the shortest forms of small integers are written. */
  lemma ByteForms(i: nat)
    ensures i == 0 ==> Announceable(0) && Header(DataStart, 0) + Shortest(i) == [DataStart]
    ensures 0 < i < DataStart ==> Shortest(i) == [i]
    ensures i >= DataStart && |Shortest(i)| == 1 ==> Shortest(i)[0] >= DataStart
  {
    assert Shortest(0) == [];
    ShortIsAnnounceable(0);
  }

  /** The innermost list of a non-empty stack, and what is below it. */
  lemma TopFrame(out: Bytes, stack: seq<(nat, nat)>)
    requires Nested(out, stack) && stack != []
    ensures var w := Abstract(out, stack);
      var (remaining, begin) := stack[|stack| - 1];
      && w.open != [] && Top(w) == Frame(remaining, out[begin..])
      && Below(w) == Abstract(out[..begin], stack[..|stack| - 1])
  {
    var (remaining, begin) := stack[|stack| - 1];
    var outer := Abstract(out[..begin], stack[..|stack| - 1]);
    assert Abstract(out, stack).open[..|outer.open|] == outer.open;
  }

  lemma NoteAtBottom(out: Bytes, n: nat)
    ensures Note(Abstract(out, []), n) == Ok(Abstract(out, []))
  {
  }

  /** What counting `n` items means for the innermost list on the stack. */
  lemma NoteAtTop(out: Bytes, stack: seq<(nat, nat)>, n: nat)
    requires Nested(out, stack) && stack != [] && n >= 1
    ensures var (remaining, begin) := stack[|stack| - 1]; begin <= |out|
    ensures var (remaining, begin) := stack[|stack| - 1]; var outer := stack[..|stack| - 1]; var w := Abstract(out, stack);
      && (remaining < n ==> Note(w, n).Thrown?)
      && (remaining > n ==> Nested(out, outer + [(remaining - n, begin)])
                            && Note(w, n) == Ok(Abstract(out, outer + [(remaining - n, begin)])))
      && (remaining == n && !Announceable(|out| - begin) ==> Note(w, n).Thrown?)
      && (remaining == n && Announceable(|out| - begin) ==>
            var out' := out[..begin] + (Header(ListStart, |out| - begin) + out[begin..]);
            Nested(out', outer) && Note(w, n) == Note(Abstract(out', outer), 1))
  {
    hide Header, Announceable, Put, Abstract;
    TopFrame(out, stack);
    NoteStaysOpen(out, stack, n);
    NoteCloses(out, stack, n);
  }

  /** A stack with its innermost count changed is as well nested. */
  lemma NestedRecounted(out: Bytes, stack: seq<(nat, nat)>, r: nat)
    requires Nested(out, stack) && stack != [] && r >= 1
    ensures Nested(out, stack[..|stack| - 1] + [(r, stack[|stack| - 1].1)])
  {
    var counted := stack[..|stack| - 1] + [(r, stack[|stack| - 1].1)];
    assert counted[..|counted| - 1] == stack[..|stack| - 1];
  }

  lemma WriterParts(w: Writer)
    requires w.open != []
    ensures w == Writer(Below(w).done, Below(w).open + [Top(w)])
  {
  }

  /** Fewer items than the list wants. */
  lemma NoteStaysOpen(out: Bytes, stack: seq<(nat, nat)>, n: nat)
    requires Nested(out, stack) && stack != [] && n >= 1
    ensures var (remaining, begin) := stack[|stack| - 1];
      remaining > n ==>
        var counted := stack[..|stack| - 1] + [(remaining - n, begin)];
        Nested(out, counted) && Note(Abstract(out, stack), n) == Ok(Abstract(out, counted))
  {
    hide Header, Announceable, Put, Abstract, Nested;
    var (remaining, begin) := stack[|stack| - 1];
    TopFrame(out, stack);
    if remaining > n {
      var counted := stack[..|stack| - 1] + [(remaining - n, begin)];
      NestedRecounted(out, stack, remaining - n);
      assert counted[..|counted| - 1] == stack[..|stack| - 1];
      TopFrame(out, counted);
      WriterParts(Abstract(out, counted));
    }
  }

  /** As many items as the list wants, and a length that a header can hold. */
  lemma NoteCloses(out: Bytes, stack: seq<(nat, nat)>, n: nat)
    requires Nested(out, stack) && stack != [] && n >= 1
    ensures var (remaining, begin) := stack[|stack| - 1];
      remaining == n && Announceable(|out| - begin) ==>
        var out' := out[..begin] + (Header(ListStart, |out| - begin) + out[begin..]);
        Nested(out', stack[..|stack| - 1])
        && Note(Abstract(out, stack), n) == Note(Abstract(out', stack[..|stack| - 1]), 1)
  {
    hide Header, Announceable, Put, Abstract;
    var (remaining, begin) := stack[|stack| - 1];
    TopFrame(out, stack);
    if remaining == n && Announceable(|out| - begin) {
      PutIsAppend(out[..begin], stack[..|stack| - 1], Header(ListStart, |out| - begin) + out[begin..]);
    }
  }

  lemma SplitAtGap(b: Bytes, begin: nat, h: Bytes)
    requires h != [] && begin + |h| <= |b|
    requires b[begin] == h[0] && b[begin + 1..begin + |h|] == h[1..]
    ensures b == b[..begin] + (h + b[begin + |h|..])
  {
    assert b[begin..begin + |h|] == [b[begin]] + b[begin + 1..begin + |h|] == h;
    assert b == b[..begin] + b[begin..begin + |h|] + b[begin + |h|..];
  }

  lemma ShortIsAnnounceable(n: nat)
    requires n < ImmediateCount
    ensures Announceable(n)
  {
    LimitIsEightBytes(n);
  }
}
