/** The entries of a trie in the order the iterators visit them: ascending, each exactly once. */
module TrieOrder {
  import opened Bytes
  import opened Trie
  import opened TrieFacts
  import opened HexPrefix

  datatype Pair = Pair(key: Key, value: Bytes)

  /** A branch's own value first, then its slots in order; keys are prefixed with the path. */
  function Entries(t: Trie, path: Key): seq<Pair>
    requires Shaped(t)
    decreases t, 0
  {
    match t
    case Empty => []
    case Leaf(key, value) => [Pair(path + key, value)]
    case Ext(key, child) => Entries(child, path + key)
    case Branch(slots, value) => OwnValue(value, path) + SlotEntries(slots, 0, path)
  }

  function OwnValue(value: Bytes, path: Key): seq<Pair> {
    if value == [] then [] else [Pair(path, value)]
  }

  /** The entries of the slots from `i` on. */
  function SlotEntries(slots: seq<Trie>, i: nat, path: Key): seq<Pair>
    requires |slots| == 16 && i <= 16 && forall j | 0 <= j < 16 :: Shaped(slots[j])
    decreases slots, 16 - i
  {
    if i == 16 then [] else Entries(slots[i], path + [i]) + SlotEntries(slots, i + 1, path)
  }

  // ---------------------------------------------------------------- the order of keys

  lemma {:induction false} BeforeShift(p: Key, a: Key, b: Key)
    ensures Before(p + a, p + b) <==> Before(a, b)
  {
    if p == [] {
      assert p + a == a && p + b == b;
    } else {
      assert (p + a)[1..] == p[1..] + a && (p + b)[1..] == p[1..] + b;
      BeforeShift(p[1..], a, b);
    }
  }

  lemma {:induction false} BeforeTransitive(a: Key, b: Key, c: Key)
    requires Before(a, b) && Before(b, c)
    ensures Before(a, c)
  {
    if a != [] && a[0] == b[0] == c[0] { BeforeTransitive(a[1..], b[1..], c[1..]); }
  }

  lemma {:induction false} BeforeTotal(a: Key, b: Key)
    ensures Before(a, b) || a == b || Before(b, a)
    ensures !(Before(a, b) && Before(b, a)) && !Before(a, a)
    decreases a, b
  {
    if a != [] && b != [] && a[0] == b[0] {
      BeforeTotal(a[1..], b[1..]);
      assert a == [a[0]] + a[1..] && b == [b[0]] + b[1..];
    }
    if a != [] { BeforeIrreflexive(a); }
  }

  lemma {:induction false} BeforeIrreflexive(a: Key)
    ensures !Before(a, a)
  {
    if a != [] { BeforeIrreflexive(a[1..]); }
  }

  // ---------------------------------------------------------------- the entries are the map, in order

  /** Every entry's key starts with the path. */
  lemma {:induction false} EntriesUnderPath(t: Trie, path: Key, i: nat)
    requires Shaped(t) && i < |Entries(t, path)|
    ensures path <= Entries(t, path)[i].key
    decreases t, 0
  {
    match t
    case Leaf(_, _) =>
    case Ext(key, child) => EntriesUnderPath(child, path + key, i);
    case Branch(slots, value) =>
      var own := |OwnValue(value, path)|;
      if i >= own { SlotEntriesUnderPath(slots, 0, path, i - own); }
  }

  /** An entry from the slots starts with the path and a nibble not below the first slot's. */
  lemma {:induction false} SlotEntriesUnderPath(slots: seq<Trie>, n: nat, path: Key, i: nat)
    requires |slots| == 16 && n <= 16 && forall j | 0 <= j < 16 :: Shaped(slots[j])
    requires i < |SlotEntries(slots, n, path)|
    ensures var k := SlotEntries(slots, n, path)[i].key; path <= k && |path| < |k| && n <= k[|path|]
    decreases slots, 16 - n
  {
    var here := |Entries(slots[n], path + [n])|;
    if i < here {
      EntriesUnderPath(slots[n], path + [n], i);
      var k := Entries(slots[n], path + [n])[i].key;
      assert (path + [n])[|path|] == n;
      assert path == (path + [n])[..|path|] == k[..|path + [n]|][..|path|];
    } else {
      SlotEntriesUnderPath(slots, n + 1, path, i - here);
    }
  }

  ghost predicate Ascending(s: seq<Pair>) {
    forall i, j | 0 <= i < j < |s| :: Before(s[i].key, s[j].key)
  }

  lemma AscendingConcat(a: seq<Pair>, b: seq<Pair>)
    requires Ascending(a) && Ascending(b)
    requires forall i, j | 0 <= i < |a| && 0 <= j < |b| :: Before(a[i].key, b[j].key)
    ensures Ascending(a + b)
  {
  }

  lemma {:induction false} EntriesAscend(t: Trie, path: Key)
    requires Shaped(t)
    ensures Ascending(Entries(t, path))
    decreases t, 0
  {
    match t
    case Empty =>
    case Leaf(_, _) =>
    case Ext(key, child) => EntriesAscend(child, path + key);
    case Branch(slots, value) =>
      SlotEntriesAscend(slots, 0, path);
      forall j | 0 <= j < |SlotEntries(slots, 0, path)| ensures Before(path, SlotEntries(slots, 0, path)[j].key) {
        SlotEntriesUnderPath(slots, 0, path, j);
        PrefixIsBefore(path, SlotEntries(slots, 0, path)[j].key);
      }
      AscendingConcat(OwnValue(value, path), SlotEntries(slots, 0, path));
  }

  lemma {:induction false} SlotEntriesAscend(slots: seq<Trie>, n: nat, path: Key)
    requires |slots| == 16 && n <= 16 && forall j | 0 <= j < 16 :: Shaped(slots[j])
    ensures Ascending(SlotEntries(slots, n, path))
    decreases slots, 16 - n
  {
    if n < 16 {
      var a, b := Entries(slots[n], path + [n]), SlotEntries(slots, n + 1, path);
      EntriesAscend(slots[n], path + [n]);
      SlotEntriesAscend(slots, n + 1, path);
      forall i, j | 0 <= i < |a| && 0 <= j < |b| ensures Before(a[i].key, b[j].key) {
        EntriesUnderPath(slots[n], path + [n], i);
        SlotEntriesUnderPath(slots, n + 1, path, j);
        assert (path + [n])[|path|] == n && (path + [n])[..|path|] == path;
        assert a[i].key[|path|] == a[i].key[..|path| + 1][|path|] == n;
        assert a[i].key[..|path|] == a[i].key[..|path| + 1][..|path|] == path == b[j].key[..|path|];
        BeforeAt(a[i].key, b[j].key, |path|);
      }
      AscendingConcat(a, b);
    }
  }

  /** Every entry is stored, with its value. */
  lemma {:induction false} EntryIsStored(t: Trie, path: Key, i: nat)
    requires Canonical(t) && Shaped(t) && i < |Entries(t, path)|
    ensures var e := Entries(t, path)[i];
      path <= e.key && Lookup(t, e.key[|path|..]) == e.value && e.value != []
    decreases t, 0
  {
    EntriesUnderPath(t, path, i);
    var e := Entries(t, path)[i];
    match t
    case Leaf(key, _) => assert (path + key)[|path|..] == key;
    case Ext(key, child) =>
      EntryIsStored(child, path + key, i);
      assert e.key[|path|..] == key + e.key[|path + key|..];
      assert (key + e.key[|path + key|..])[|key|..] == e.key[|path + key|..];
    case Branch(slots, value) =>
      var own := |OwnValue(value, path)|;
      if i < own {
        assert path[|path|..] == [];
      } else {
        SlotEntryIsStored(t, 0, path, i - own);
      }
  }

  lemma {:induction false} SlotEntryIsStored(t: Trie, n: nat, path: Key, i: nat)
    requires Canonical(t) && Shaped(t) && t.Branch? && n <= 16 && i < |SlotEntries(t.slots, n, path)|
    ensures var e := SlotEntries(t.slots, n, path)[i];
      path <= e.key && Lookup(t, e.key[|path|..]) == e.value && e.value != []
    decreases t.slots, 16 - n
  {
    var here := |Entries(t.slots[n], path + [n])|;
    if i < here {
      EntryIsStored(t.slots[n], path + [n], i);
      var k := Entries(t.slots[n], path + [n])[i].key;
      assert k == (path + [n]) + k[|path| + 1..];
      assert k[|path|..] == [n] + k[|path| + 1..];
      assert ([n] + k[|path| + 1..])[1..] == k[|path| + 1..];
    } else {
      SlotEntryIsStored(t, n + 1, path, i - here);
    }
  }

  /** Every stored key has an entry. */
  lemma {:induction false} StoredIsEntry(t: Trie, path: Key, k: Key) returns (i: nat)
    requires Canonical(t) && Shaped(t) && Stores(t, k)
    ensures i < |Entries(t, path)| && Entries(t, path)[i] == Pair(path + k, Lookup(t, k))
    decreases t, 0
  {
    match t
    case Leaf(_, _) => i := 0;
    case Ext(key, child) =>
      i := StoredIsEntry(child, path + key, k[|key|..]);
      assert path + key + k[|key|..] == path + k;
    case Branch(slots, value) =>
      if k == [] {
        i := 0;
        assert path + k == path;
      } else {
        var n := StoredIsSlotEntry(t, 0, path, k);
        i := |OwnValue(value, path)| + n;
      }
  }

  lemma {:induction false} StoredIsSlotEntry(t: Trie, n: nat, path: Key, k: Key) returns (i: nat)
    requires Canonical(t) && Shaped(t) && t.Branch? && k != [] && n <= k[0] && Stores(t, k)
    ensures i < |SlotEntries(t.slots, n, path)| && SlotEntries(t.slots, n, path)[i] == Pair(path + k, Lookup(t, k))
    decreases t.slots, 16 - n
  {
    if n == k[0] {
      i := StoredIsEntry(t.slots[n], path + [n], k[1..]);
      assert path + [n] + k[1..] == path + k;
    } else {
      i := StoredIsSlotEntry(t, n + 1, path, k);
      i := i + |Entries(t.slots[n], path + [n])|;
    }
  }

  /** The entries of the trie of a map are exactly the pairs of the map, in ascending key order. */
  lemma EntriesAreTheMap(m: Store)
    requires NonEmptyValues(m)
    ensures var e := Entries(TrieOf(m), []);
      && Ascending(e)
      && (forall i | 0 <= i < |e| :: e[i].key in m && m[e[i].key] == e[i].value)
      && (forall k | k in m :: Pair(k, m[k]) in e)
  {
    var t := TrieOf(m);
    var e := Entries(t, []);
    EntriesAscend(t, []);
    forall i | 0 <= i < |e| ensures e[i].key in m && m[e[i].key] == e[i].value {
      EntryIsStored(t, [], i);
      assert e[i].key[0..] == e[i].key;
      assert Lookup(t, e[i].key) == ValueAt(m, e[i].key);
    }
    forall k | k in m ensures Pair(k, m[k]) in e {
      assert Lookup(t, k) == ValueAt(m, k);
      var i := StoredIsEntry(t, [], k);
      assert [] + k == k;
    }
  }
}
