/**
  The batch construction of libdevcore/TrieHash.cpp: the same trie, built in one pass over the
  entries in key order and without a store.
 */
module TrieHash {
  import opened Bytes
  import opened Items
  import opened Trie
  import opened TrieFacts
  import opened Nodes
  import HexPrefix

  /** A key, as nibbles, and its value; a HexMap is the list of its entries in key order. */
  datatype Entry = Entry(key: Key, value: Bytes)

  /** Lengths are counted in 32-bit integers. */
  const UnsignedMax := 0xffff_ffff

  ghost predicate Sorted(s: seq<Entry>) {
    forall i, j | 0 <= i < j < |s| :: HexPrefix.Before(s[i].key, s[j].key)
  }

  ghost predicate WellFormed(s: seq<Entry>) {
    Sorted(s) && forall i | 0 <= i < |s| :: s[i].value != [] && |s[i].key| < UnsignedMax
  }

  /** The entries `begin..end` agree on their first `pre` nibbles. */
  ghost predicate Agree(s: seq<Entry>, begin: nat, end: nat, pre: nat) {
    && begin <= end <= |s|
    && (forall i | begin <= i < end :: pre <= |s[i].key|)
    && (forall i | begin <= i < end :: s[i].key[..pre] == s[begin].key[..pre])
  }

  /** `t` stores the entries `begin..end`, their keys shortened by `pre`, and nothing else. */
  ghost predicate Holds(t: Trie, s: seq<Entry>, begin: nat, end: nat, pre: nat)
    requires Shaped(t) && Agree(s, begin, end, pre)
  {
    && (forall i | begin <= i < end :: Lookup(t, s[i].key[pre..]) == s[i].value)
    && (forall j | Stores(t, j) :: exists i :: begin <= i < end && s[i].key[pre..] == j)
  }

  /** `x` is the stored form of a canonical trie of the entries `begin..end`. */
  ghost predicate IsNodeFor(x: Item, s: seq<Entry>, begin: nat, end: nat, pre: nat)
    requires Agree(s, begin, end, pre)
  {
    exists t :: Canonical(t) && Shaped(t) && x == NodeItem(t) && Holds(t, s, begin, end, pre)
  }

  /** `r` is the reference to such a trie, which is not empty. */
  ghost predicate IsRefFor(r: Item, s: seq<Entry>, begin: nat, end: nat, pre: nat)
    requires Agree(s, begin, end, pre)
  {
    exists t :: Canonical(t) && Shaped(t) && t != Empty && r == Ref(t) && Holds(t, s, begin, end, pre)
  }

  // ---------------------------------------------------------------- what the key order gives

  /** Of two agreeing keys in order, the second goes on, and not with a smaller nibble. */
  lemma OrderAfterPrefix(a: Key, b: Key, pre: nat)
    requires pre <= |a| && pre <= |b| && a[..pre] == b[..pre] && HexPrefix.Before(a, b)
    ensures pre < |b| && (pre < |a| ==> a[pre] <= b[pre])
  {
    if pre == |b| {
      assert b == a[..pre];
      HexPrefix.PrefixIsBefore(a, b);
    } else if pre < |a| {
      HexPrefix.BeforeAt(a, b, pre);
    }
  }

  /** All entries but the first go on after the shared prefix, in ascending nibble order. */
  lemma EntriesGoOn(s: seq<Entry>, begin: nat, end: nat, pre: nat)
    requires Sorted(s) && Agree(s, begin, end, pre)
    ensures forall i | begin < i < end :: pre < |s[i].key|
    ensures forall i, j | begin <= i < j < end && pre < |s[i].key| :: pre < |s[j].key| && s[i].key[pre] <= s[j].key[pre]
  {
    forall i, j | begin <= i < j < end
      ensures pre < |s[j].key| && (pre < |s[i].key| ==> s[i].key[pre] <= s[j].key[pre])
    {
      OrderAfterPrefix(s[i].key, s[j].key, pre);
    }
  }

  // ---------------------------------------------------------------- the construction

  /** The loop that finds how many nibbles all entries share with the first one. */
  method SharedByAll(s: seq<Entry>, begin: nat, end: nat, pre: nat) returns (sharedPre: nat, ghost rival: nat)
    requires WellFormed(s) && Agree(s, begin, end, pre) && begin + 1 < end
    ensures pre <= sharedPre && begin < rival < end
    ensures Shared(s[begin].key, s[rival].key) == sharedPre
    ensures sharedPre > 0 ==> Agree(s, begin, end, sharedPre)
  {
    hide Shared;
    sharedPre := UnsignedMax;
    rival := begin;
    var i := begin + 1;
    var first := s[begin].key;
    assert forall m | begin <= m < end :: pre <= |s[m].key| < UnsignedMax && s[m].key[..pre] == first[..pre];
    while i != end && sharedPre != 0
      invariant begin + 1 <= i <= end && pre <= sharedPre
      invariant i == begin + 1 ==> sharedPre == UnsignedMax
      invariant i > begin + 1 ==> begin < rival < i && Shared(first, s[rival].key) == sharedPre
      invariant forall m | begin < m < i :: sharedPre <= Shared(first, s[m].key)
      decreases end - i
    {
      var shared := SharedBelow(first, s[i].key, pre, sharedPre);
      if shared < sharedPre {
        sharedPre := shared;
        rival := i;
      }
      i := i + 1;
    }
    if sharedPre > 0 { SharedMeansAgree(s, begin, end, sharedPre); }
  }

  /** The inner loop: compares two keys from what they are known to share, up to a cap. */
  method SharedBelow(first: Key, key: Key, pre: nat, sharedPre: nat) returns (shared: nat)
    requires pre <= |first| && pre <= |key| && first[..pre] == key[..pre] && pre <= sharedPre
    ensures pre <= shared <= sharedPre && shared <= Shared(first, key)
    ensures shared < sharedPre ==> shared == Shared(first, key)
  {
    hide Shared;
    var x := if sharedPre < |first| && sharedPre < |key| then sharedPre else if |first| < |key| then |first| else |key|;
    shared := pre;
    while shared < x && first[shared] == key[shared]
      invariant pre <= shared <= x && first[..shared] == key[..shared]
    {
      assert first[..shared + 1] == first[..shared] + [first[shared]] && key[..shared + 1] == key[..shared] + [key[shared]];
      shared := shared + 1;
    }
    CappedShared(first, key, shared, x);
  }

  lemma SharedMeansAgree(s: seq<Entry>, begin: nat, end: nat, n: nat)
    requires begin + 1 < end <= |s| && forall m | begin < m < end :: n <= Shared(s[begin].key, s[m].key)
    ensures Agree(s, begin, end, n)
  {
    hide Shared;
    var first := s[begin].key;
    forall m | begin <= m < end ensures n <= |s[m].key| && s[m].key[..n] == first[..n] {
      if m > begin {
        var k := Shared(first, s[m].key);
        assert s[m].key[..n] == s[m].key[..k][..n] && first[..n] == first[..k][..n];
      } else {
        assert n <= Shared(first, s[begin + 1].key);
      }
    }
  }

  lemma {:induction false} SharedAtLeast(a: Key, b: Key, n: nat)
    requires n <= |a| && n <= |b| && a[..n] == b[..n]
    ensures n <= Shared(a, b)
  {
    if n > 0 {
      assert a[0] == a[..n][0] == b[..n][0] == b[0];
      assert a[1..][..n - 1] == a[..n][1..] && b[1..][..n - 1] == b[..n][1..];
      SharedAtLeast(a[1..], b[1..], n - 1);
    }
  }

  /** Comparing up to a cap finds the shared length, or that it is not below the cap. */
  lemma CappedShared(a: Key, b: Key, n: nat, x: nat)
    requires n <= x <= |a| && x <= |b| && a[..n] == b[..n]
    requires n < x ==> a[n] != b[n]
    ensures n <= Shared(a, b)
    ensures n < x || x == |a| || x == |b| ==> n == Shared(a, b)
  {
    SharedAtLeast(a, b, n);
    if n < x || x == |a| || x == |b| { HexPrefix.SharedIsLongest(a, b, n); }
  }

  /** hash256rlp: the node for the entries `begin..end`, whose first `pre` nibbles are above it. */
  method Hash256Rlp(s: seq<Entry>, begin: nat, end: nat, pre: nat, ghost bound: nat) returns (x: Item, ghost t: Trie)
    requires WellFormed(s) && Agree(s, begin, end, pre)
    requires forall i | 0 <= i < |s| :: |s[i].key| <= bound
    ensures IsNodeFor(x, s, begin, end, pre)
    ensures Canonical(t) && Shaped(t) && x == NodeItem(t) && Holds(t, s, begin, end, pre)
    ensures begin < end ==> t != Empty
    ensures (exists i :: begin < i < end && Shared(s[begin].key, s[i].key) == pre) ==> t.Branch?
    decreases bound - pre, 3
  {
    if begin == end {
      x, t := Null, Empty;
      assert x == NodeItem(t) && Holds(t, s, begin, end, pre);
      return;
    }
    if begin + 1 == end {
      var key := s[begin].key[pre..];
      t := Leaf(key, s[begin].value);
      x := List([Data(HexPrefix.Encode(key, true)), Data(s[begin].value)]);
      assert x == NodeItem(t) && Holds(t, s, begin, end, pre);
      return;
    }
    var sharedPre, w := SharedByAll(s, begin, end, pre);
    if sharedPre > pre {
      x, t := ExtensionNode(s, begin, end, pre, sharedPre, w, bound);
    } else {
      x, t := BranchNode(s, begin, end, pre, w, bound);
    }
  }

  /** hash256aux: a child written out, or its hash when it is large. */
  method Hash256Aux(s: seq<Entry>, begin: nat, end: nat, pre: nat, ghost bound: nat) returns (r: Item, ghost t: Trie)
    requires WellFormed(s) && Agree(s, begin, end, pre) && begin < end
    requires forall i | 0 <= i < |s| :: |s[i].key| <= bound
    ensures IsRefFor(r, s, begin, end, pre)
    ensures Canonical(t) && Shaped(t) && t != Empty && r == Ref(t) && Holds(t, s, begin, end, pre)
    ensures (exists i :: begin < i < end && Shared(s[begin].key, s[i].key) == pre) ==> t.Branch?
    decreases bound - pre, 4
  {
    var x;
    x, t := Hash256Rlp(s, begin, end, pre, bound);
    r := if ItemSize(x) < HashSize then x else Digest(x);
  }

  /** The pair for entries that go on sharing nibbles. */
  method ExtensionNode(s: seq<Entry>, begin: nat, end: nat, pre: nat, sharedPre: nat, ghost rival: nat, ghost bound: nat)
    returns (x: Item, ghost t: Trie)
    requires WellFormed(s) && Agree(s, begin, end, pre) && Agree(s, begin, end, sharedPre) && pre < sharedPre
    requires begin < rival < end && Shared(s[begin].key, s[rival].key) == sharedPre
    requires forall i | 0 <= i < |s| :: |s[i].key| <= bound
    ensures IsNodeFor(x, s, begin, end, pre)
    ensures Canonical(t) && Shaped(t) && x == NodeItem(t) && Holds(t, s, begin, end, pre) && t.Ext?
    decreases bound - pre, 0
  {
    var key := s[begin].key[pre..sharedPre];
    assert |s[begin].key| <= bound;
    var r;
    ghost var c;
    r, c := Hash256Aux(s, begin, end, sharedPre, bound);
    t := Ext(key, c);
    x := List([Data(HexPrefix.Encode(key, false)), r]);
    ExtensionHolds(c, s, begin, end, pre, sharedPre);
  }

  lemma ExtensionHolds(c: Trie, s: seq<Entry>, begin: nat, end: nat, pre: nat, sharedPre: nat)
    requires Shaped(c) && Agree(s, begin, end, pre) && Agree(s, begin, end, sharedPre) && pre < sharedPre && begin < end
    requires Holds(c, s, begin, end, sharedPre)
    ensures Shaped(Ext(s[begin].key[pre..sharedPre], c))
    ensures Holds(Ext(s[begin].key[pre..sharedPre], c), s, begin, end, pre)
  {
    var key := s[begin].key[pre..sharedPre];
    var t := Ext(key, c);
    forall i | begin <= i < end
      ensures s[i].key[pre..] == key + s[i].key[sharedPre..] && Lookup(t, s[i].key[pre..]) == s[i].value
    {
      var k := s[i].key;
      assert k[pre..sharedPre] == k[..sharedPre][pre..] == s[begin].key[..sharedPre][pre..] == key;
      assert k[pre..] == key + k[sharedPre..];
      assert k[pre..][|key|..] == k[sharedPre..];
    }
    forall j | Stores(t, j) ensures exists i :: begin <= i < end && s[i].key[pre..] == j {
      assert Stores(c, j[|key|..]);
      var i :| begin <= i < end && s[i].key[sharedPre..] == j[|key|..];
      assert j == key + j[|key|..];
    }
  }

  /** `c` stores the entries whose next nibble is `n`, their keys shortened past it. */
  ghost predicate SlotHolds(c: Trie, s: seq<Entry>, begin: nat, end: nat, pre: nat, n: int)
    requires Shaped(c) && begin <= end <= |s|
  {
    && (forall m | begin <= m < end :: GoesOn(s[m].key, pre, n) ==> Lookup(c, s[m].key[pre + 1..]) == s[m].value)
    && (forall j | Stores(c, j) :: exists m :: begin <= m < end && GoesOn(s[m].key, pre, n) && s[m].key[pre + 1..] == j)
  }

  predicate GoesOn(k: Key, pre: nat, n: int) {
    pre < |k| && k[pre] == n
  }

  /** The loop that gathers the entries with next nibble `n`. */
  method GatherNibble(s: seq<Entry>, b: nat, end: nat, pre: nat, n: nat) returns (next: nat)
    requires b <= end <= |s|
    requires forall m | b <= m < end :: pre < |s[m].key| && n <= s[m].key[pre]
    requires forall l, m | b <= l < m < end :: s[l].key[pre] <= s[m].key[pre]
    ensures b <= next <= end
    ensures forall m | b <= m < next :: s[m].key[pre] == n
    ensures forall m | next <= m < end :: n < s[m].key[pre]
  {
    next := b;
    while next != end && s[next].key[pre] == n
      invariant b <= next <= end && forall m | b <= m < next :: s[m].key[pre] == n
      decreases end - next
    {
      next := next + 1;
    }
  }

  /** The slot for next nibble `n`, filled from the entries `b..next`. */
  method SlotEntry(s: seq<Entry>, begin: nat, end: nat, b: nat, next: nat, pre: nat, n: nat, ghost bound: nat)
    returns (r: Item, ghost c: Trie)
    requires WellFormed(s) && Agree(s, begin, end, pre) && begin <= b <= next <= end
    requires forall i | 0 <= i < |s| :: |s[i].key| <= bound
    requires forall m | begin <= m < end :: GoesOn(s[m].key, pre, n) <==> b <= m < next
    ensures Canonical(c) && Shaped(c) && r == Ref(c) && SlotHolds(c, s, begin, end, pre, n)
    ensures c == Empty <==> b == next
    decreases bound - pre, 0
  {
    if b == next {
      return Null, Empty;
    }
    assert GoesOn(s[b].key, pre, n) && |s[b].key| <= bound;
    forall m | b <= m < next ensures pre + 1 <= |s[m].key| && s[m].key[..pre + 1] == s[b].key[..pre + 1] {
      assert GoesOn(s[m].key, pre, n);
      assert s[m].key[..pre + 1] == s[m].key[..pre] + [s[m].key[pre]];
      assert s[b].key[..pre + 1] == s[b].key[..pre] + [s[b].key[pre]];
    }
    r, c := Hash256Aux(s, b, next, pre + 1, bound);
    forall j | Stores(c, j) ensures exists m :: begin <= m < end && GoesOn(s[m].key, pre, n) && s[m].key[pre + 1..] == j {
      var m :| b <= m < next && s[m].key[pre + 1..] == j;
      assert GoesOn(s[m].key, pre, n);
    }
  }

  /** The branch for entries of which two part right after the prefix. */
  method BranchNode(s: seq<Entry>, begin: nat, end: nat, pre: nat, ghost rival: nat, ghost bound: nat)
    returns (x: Item, ghost t: Trie)
    requires WellFormed(s) && Agree(s, begin, end, pre)
    requires begin < rival < end && Shared(s[begin].key, s[rival].key) == pre
    requires forall i | 0 <= i < |s| :: |s[i].key| <= bound
    ensures IsNodeFor(x, s, begin, end, pre)
    ensures Canonical(t) && Shaped(t) && x == NodeItem(t) && Holds(t, s, begin, end, pre) && t.Branch?
    decreases bound - pre, 1
  {
    hide Holds, SlotHolds, Canonical, Shared;
    EntriesGoOn(s, begin, end, pre);
    var b := begin;
    if pre == |s[b].key| { b := b + 1; }
    var r: seq<Item> := [];
    ghost var slots: seq<Trie> := [];
    var i: nat := 0;
    assert pre < bound by { assert |s[rival].key| <= bound && pre < |s[rival].key|; }
    while i < 16
      invariant 0 <= i <= 16 && |r| == i && |slots| == i && begin <= b <= end
      invariant forall c | 0 <= c < i :: Canonical(slots[c]) && Shaped(slots[c]) && r[c] == Ref(slots[c])
      invariant forall c | 0 <= c < i :: SlotHolds(slots[c], s, begin, end, pre, c)
      invariant forall m | begin <= m < b :: pre < |s[m].key| ==> s[m].key[pre] < i
      invariant forall m | b <= m < end :: pre < |s[m].key| && i <= s[m].key[pre]
    {
      var next := GatherNibble(s, b, end, pre, i);
      var entry;
      ghost var c;
      entry, c := SlotEntry(s, begin, end, b, next, pre, i, bound);
      r, slots := r + [entry], slots + [c];
      b := next;
      i := i + 1;
    }
    var value := if pre == |s[begin].key| then s[begin].value else [];
    x := List(r + [Data(value)]);
    t := Branch(slots, value);
    assert NodeItem(t).items == r + [Data(value)];
    BranchHolds(t, s, begin, end, pre, rival);
  }

  /** The branch answers for an entry with its value. */
  lemma BranchLooksUp(t: Trie, s: seq<Entry>, begin: nat, end: nat, pre: nat, m: nat)
    requires WellFormed(s) && Agree(s, begin, end, pre) && t.Branch? && Shaped(t) && begin <= m < end
    requires forall c | 0 <= c < 16 :: SlotHolds(t.slots[c], s, begin, end, pre, c)
    requires t.value == if pre == |s[begin].key| then s[begin].value else []
    ensures Lookup(t, s[m].key[pre..]) == s[m].value
  {
    EntriesGoOn(s, begin, end, pre);
    var k := s[m].key;
    if |k| == pre {
      assert m == begin;
      assert k[pre..] == [];
    } else {
      assert GoesOn(k, pre, k[pre]);
      assert k[pre..][0] == k[pre] && k[pre..][1..] == k[pre + 1..];
    }
  }

  /** Every key it stores is that of an entry. */
  lemma BranchStores(t: Trie, s: seq<Entry>, begin: nat, end: nat, pre: nat, j: Key)
    requires WellFormed(s) && Agree(s, begin, end, pre) && t.Branch? && Shaped(t) && begin < end && Stores(t, j)
    requires forall c | 0 <= c < 16 :: SlotHolds(t.slots[c], s, begin, end, pre, c)
    requires t.value == if pre == |s[begin].key| then s[begin].value else []
    ensures exists m :: begin <= m < end && s[m].key[pre..] == j
  {
    hide WellFormed;
    if j == [] {
      assert s[begin].key[pre..] == j;
    } else {
      assert Stores(t.slots[j[0]], j[1..]);
      var m :| begin <= m < end && GoesOn(s[m].key, pre, j[0]) && s[m].key[pre + 1..] == j[1..];
      assert s[m].key[pre..] == [j[0]] + j[1..] == j;
    }
  }

  lemma EntriesPart(s: seq<Entry>, begin: nat, end: nat, pre: nat, rival: nat)
    requires WellFormed(s) && Agree(s, begin, end, pre) && begin < rival < end
    requires Shared(s[begin].key, s[rival].key) == pre
    ensures EntryOf(s[begin].key, pre) != EntryOf(s[rival].key, pre)
  {
    EntriesGoOn(s, begin, end, pre);
  }

  /** Slots that hold their entries make a branch that holds all of them, and two of them part. */
  lemma BranchHolds(t: Trie, s: seq<Entry>, begin: nat, end: nat, pre: nat, rival: nat)
    requires WellFormed(s) && Agree(s, begin, end, pre) && t.Branch? && |t.slots| == 16
    requires begin < rival < end && Shared(s[begin].key, s[rival].key) == pre
    requires forall c | 0 <= c < 16 :: Canonical(t.slots[c]) && Shaped(t.slots[c])
    requires forall c | 0 <= c < 16 :: SlotHolds(t.slots[c], s, begin, end, pre, c)
    requires t.value == if pre == |s[begin].key| then s[begin].value else []
    ensures Shaped(t) && Canonical(t) && Holds(t, s, begin, end, pre)
  {
    hide SlotHolds, Lookup, WellFormed;
    forall m | begin <= m < end ensures Lookup(t, s[m].key[pre..]) == s[m].value {
      BranchLooksUp(t, s, begin, end, pre, m);
    }
    forall j | Stores(t, j) ensures exists m :: begin <= m < end && s[m].key[pre..] == j {
      BranchStores(t, s, begin, end, pre, j);
    }
    EntryInUse(t, s, begin, end, pre, begin);
    EntryInUse(t, s, begin, end, pre, rival);
    EntriesPart(s, begin, end, pre, rival);
    ForkedBy(t.slots, t.value, EntryOf(s[begin].key, pre), EntryOf(s[rival].key, pre));
  }

  /** The entry of a branch that a key goes to. */
  function EntryOf(k: Key, pre: nat): int {
    if pre < |k| then k[pre] else 16
  }

  lemma EntryInUse(t: Trie, s: seq<Entry>, begin: nat, end: nat, pre: nat, m: nat)
    requires WellFormed(s) && Agree(s, begin, end, pre) && t.Branch? && Shaped(t)
    requires begin <= m < end && Lookup(t, s[m].key[pre..]) == s[m].value
    ensures InUse(t.slots, t.value, EntryOf(s[m].key, pre))
  {
    var k := s[m].key;
    if pre < |k| {
      assert k[pre..][0] == k[pre];
    }
  }

  // ---------------------------------------------------------------- the whole map

  /** The order of a BytesMap. */
  predicate BytesBefore(a: Bytes, b: Bytes) {
    b != [] && (a == [] || a[0] < b[0] || (a[0] == b[0] && BytesBefore(a[1..], b[1..])))
  }

  /** Byte order is nibble order. */
  lemma {:induction false} NibbleOrder(a: Bytes, b: Bytes)
    requires BytesBefore(a, b)
    ensures HexPrefix.Before(AsNibbles(a), AsNibbles(b))
  {
    if a != [] {
      var x, y := AsNibbles(a), AsNibbles(b);
      assert x[0] == a[0] / 16 && x[1] == a[0] % 16 && y[0] == b[0] / 16 && y[1] == b[0] % 16;
      assert x[1..][0] == x[1] && y[1..][0] == y[1];
      assert x[1..][1..] == AsNibbles(a[1..]) && y[1..][1..] == AsNibbles(b[1..]);
      if a[0] == b[0] { NibbleOrder(a[1..], b[1..]); }
    }
  }

  ghost predicate SortedMap(s: seq<(Bytes, Bytes)>) {
    && (forall i, j | 0 <= i < j < |s| :: BytesBefore(s[i].0, s[j].0))
    && (forall i | 0 <= i < |s| :: s[i].1 != [] && 2 * |s[i].0| < 0xffff_ffff)
  }

  /** The map that inserting the pairs one after the other leaves; a later value wins. */
  function StoreOf(s: seq<(Bytes, Bytes)>): (m: Store)
    ensures (forall i | 0 <= i < |s| :: s[i].1 != []) ==> NonEmptyValues(m)
    ensures forall k | k in m :: exists i :: 0 <= i < |s| && AsNibbles(s[i].0) == k
  {
    if s == [] then map[]
    else
      var last := s[|s| - 1];
      StoreOf(s[..|s| - 1])[AsNibbles(last.0) := last.1]
  }

  lemma FrontIsSorted(s: seq<(Bytes, Bytes)>)
    requires SortedMap(s) && s != []
    ensures SortedMap(s[..|s| - 1])
  {
    hide BytesBefore;
    var front := s[..|s| - 1];
    assert forall j | 0 <= j < |front| :: front[j] == s[j];
  }

  /** In a sorted map every pair is in force. */
  lemma {:induction false} SortedPairsCount(s: seq<(Bytes, Bytes)>, i: nat)
    requires SortedMap(s) && i < |s|
    ensures AsNibbles(s[i].0) in StoreOf(s) && StoreOf(s)[AsNibbles(s[i].0)] == s[i].1
  {
    hide AsNibbles, HexPrefix.Before;
    var n := |s| - 1;
    if i < n {
      var front := s[..n];
      FrontIsSorted(s);
      SortedPairsCount(front, i);
      NibbleOrder(s[i].0, s[n].0);
      BeforeIsStrict(AsNibbles(s[i].0), AsNibbles(s[n].0));
    }
  }

  lemma {:induction false} BeforeIsStrict(a: Key, b: Key)
    requires HexPrefix.Before(a, b)
    ensures a != b
  {
    if a != [] && a[0] == b[0] { BeforeIsStrict(a[1..], b[1..]); }
  }

  /** The loop of rlp256 that converts the keys, from the last entry to the first. */
  method HexMapOf(s: seq<(Bytes, Bytes)>) returns (hexMap: seq<Entry>)
    requires SortedMap(s)
    ensures |hexMap| == |s| && WellFormed(hexMap)
    ensures forall i | 0 <= i < |s| :: hexMap[i] == Entry(AsNibbles(s[i].0), s[i].1)
  {
    hexMap := [];
    var i := |s|;
    while i != 0
      invariant 0 <= i <= |s| && |hexMap| == |s| - i
      invariant forall j | i <= j < |s| :: hexMap[j - i] == Entry(AsNibbles(s[j].0), s[j].1)
    {
      i := i - 1;
      hexMap := [Entry(AsNibbles(s[i].0), s[i].1)] + hexMap;
    }
    forall a | 0 <= a < |s| ensures hexMap[a] == Entry(AsNibbles(s[a].0), s[a].1) && |hexMap[a].key| < UnsignedMax {
      assert hexMap[a - 0] == Entry(AsNibbles(s[a].0), s[a].1);
    }
    forall a, b | 0 <= a < b < |s| ensures HexPrefix.Before(hexMap[a].key, hexMap[b].key) {
      NibbleOrder(s[a].0, s[b].0);
    }
  }

  /** rlp256: the root node of the map, the very node incremental insertion arrives at. */
  method Rlp256(s: seq<(Bytes, Bytes)>) returns (x: Item)
    requires SortedMap(s)
    ensures x == NodeItem(TrieOf(StoreOf(s)))
  {
    if s == [] {
      TrieOfIsUnique(Empty, map[]);
      return Null;
    }
    var hexMap := HexMapOf(s);
    ghost var t;
    x, t := Hash256Rlp(hexMap, 0, |hexMap|, 0, UnsignedMax);
    forall k ensures Lookup(t, k) == ValueAt(StoreOf(s), k) {
      if k in StoreOf(s) {
        var i :| 0 <= i < |s| && AsNibbles(s[i].0) == k;
        SortedPairsCount(s, i);
        assert hexMap[i].key[0..] == k;
      } else if Stores(t, k) {
        var i :| 0 <= i < |hexMap| && hexMap[i].key[0..] == k;
        SortedPairsCount(s, i);
        assert false;
      }
    }
    TrieOfIsUnique(t, StoreOf(s));
  }

  method Hash256(s: seq<(Bytes, Bytes)>) returns (h: Hash)
    requires SortedMap(s)
    ensures h == Sha3(NodeItem(TrieOf(StoreOf(s))))
  {
    var x := Rlp256(s);
    h := Sha3(x);
  }
}
