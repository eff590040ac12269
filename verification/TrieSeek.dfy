/** Where a search for the first key not less than a given one stands inside a trie. */
module TrieSeek {
  import opened Bytes
  import opened Trie
  import opened TrieOrder
  import opened HexPrefix

  /** The entries left when the leading ones before `key` are dropped. */
  function DropBefore(s: seq<Pair>, key: Key): (r: seq<Pair>)
    ensures r != [] ==> !Before(r[0].key, key)
  {
    if s != [] && Before(s[0].key, key) then DropBefore(s[1..], key) else s
  }

  /** In an ascending list what is left are all the entries not before `key`. */
  lemma {:induction false} DropBeforeIsLowerBound(s: seq<Pair>, key: Key) returns (n: nat)
    requires Ascending(s)
    ensures n <= |s| && DropBefore(s, key) == s[n..]
    ensures forall i | 0 <= i < n :: Before(s[i].key, key)
    ensures forall i | n <= i < |s| :: !Before(s[i].key, key)
  {
    n := 0;
    if s != [] && Before(s[0].key, key) {
      assert forall i | 0 <= i < |s[1..]| :: s[1..][i] == s[i + 1];
      n := DropBeforeIsLowerBound(s[1..], key);
      assert s[1..][n..] == s[n + 1..];
      forall i | n + 1 <= i < |s| ensures !Before(s[i].key, key) { assert s[i] == s[1..][i - 1]; }
      forall i | 0 <= i < n + 1 ensures Before(s[i].key, key) { if i > 0 { assert s[i] == s[1..][i - 1]; } }
      n := n + 1;
    } else {
      forall i | 0 <= i < |s| ensures !Before(s[i].key, key) {
        if i > 0 && Before(s[i].key, key) { BeforeTransitive(s[0].key, s[i].key, key); }
      }
    }
  }

  lemma {:induction false} DropAll(a: seq<Pair>, b: seq<Pair>, key: Key)
    requires forall i | 0 <= i < |a| :: Before(a[i].key, key)
    ensures DropBefore(a + b, key) == DropBefore(b, key)
  {
    if a == [] {
      assert a + b == b;
    } else {
      assert (a + b)[1..] == a[1..] + b;
      DropAll(a[1..], b, key);
    }
  }

  lemma {:induction false} DropNone(a: seq<Pair>, b: seq<Pair>, key: Key)
    requires forall i | 0 <= i < |b| :: !Before(b[i].key, key)
    ensures DropBefore(a + b, key) == DropBefore(a, key) + b
  {
    if a == [] {
      assert a + b == b;
    } else if Before(a[0].key, key) {
      assert (a + b)[1..] == a[1..] + b;
      DropNone(a[1..], b, key);
    }
  }

  /** The entries of `t` not before the path followed by `k`. */
  function Seek(t: Trie, path: Key, k: Key): seq<Pair>
    requires Shaped(t)
  {
    DropBefore(Entries(t, path), path + k)
  }

  lemma SeekEmptyKey(t: Trie, path: Key)
    requires Shaped(t)
    ensures Seek(t, path, []) == Entries(t, path)
  {
    assert path + [] == path;
    if Entries(t, path) != [] {
      EntriesUnderPath(t, path, 0);
      PrefixIsBefore(Entries(t, path)[0].key, path);
    }
  }

  /** Keys that part from `k` above it all lie before it. */
  lemma {:induction false} PartsBelow(a: Key, k: Key, x: Key)
    requires Before(a, k) && !(a <= k)
    ensures Before(a + x, k)
  {
    assert (a + x)[0] == a[0] && (a + x)[1..] == a[1..] + x;
    if a[0] == k[0] { PartsBelow(a[1..], k[1..], x); }
  }

  lemma {:induction false} PartsAbove(a: Key, k: Key, x: Key)
    requires Before(k, a)
    ensures !Before(a + x, k)
  {
    assert (a + x)[0] == a[0] && (a + x)[1..] == a[1..] + x;
    if k != [] && a[0] == k[0] { PartsAbove(a[1..], k[1..], x); }
  }

  /** Entries that all start with `q`, which `k` does not follow, are all dropped or all kept. */
  lemma SeekAside(t: Trie, path: Key, q: Key, k: Key)
    requires Shaped(t) && !(q <= k)
    ensures !Before(k, q) ==> DropBefore(Entries(t, path + q), path + k) == []
    ensures Before(k, q) ==> DropBefore(Entries(t, path + q), path + k) == Entries(t, path + q)
  {
    var e := Entries(t, path + q);
    BeforeTotal(q, k);
    forall i | 0 <= i < |e|
      ensures !Before(k, q) ==> Before(e[i].key, path + k)
      ensures Before(k, q) ==> !Before(e[i].key, path + k)
    {
      EntriesUnderPath(t, path + q, i);
      var x := e[i].key[|path + q|..];
      assert e[i].key == path + (q + x);
      BeforeShift(path, q + x, k);
      if Before(k, q) { PartsAbove(q, k, x); } else { PartsBelow(q, k, x); }
    }
    if !Before(k, q) {
      DropAll(e, [], path + k);
      assert e + [] == e;
    }
  }

  /** A pair whose key the search leaves is skipped or taken whole. */
  lemma SeekPairAside(t: Trie, path: Key, k: Key)
    requires Shaped(t) && (t.Leaf? || t.Ext?) && !(t.key <= k)
    ensures Seek(t, path, k) == if Before(k, t.key) then Entries(t, path) else []
  {
    if t.Ext? {
      SeekAside(t.child, path, t.key, k);
    } else {
      var empty := Leaf([], t.value);
      assert Entries(empty, path + t.key)[0].key == path + t.key;
      SeekAside(empty, path, t.key, k);
    }
  }

  lemma SeekExtFollowed(t: Trie, path: Key, k: Key)
    requires Shaped(t) && t.Ext? && t.key <= k
    ensures Seek(t, path, k) == Seek(t.child, path + t.key, k[|t.key|..])
  {
    assert path + t.key + k[|t.key|..] == path + k;
  }

  lemma SeekLeafFollowed(t: Trie, path: Key, k: Key)
    requires t.Leaf? && t.key <= k
    ensures Seek(t, path, k) == if t.key == k then Entries(t, path) else []
  {
    BeforeShift(path, t.key, k);
    PrefixIsBefore(t.key, k);
    var e := Entries(t, path);
    assert e == [Pair(path + t.key, t.value)] && e[1..] == [];
    assert Before(e[0].key, path + k) <==> t.key != k;
    assert DropBefore(e[1..], path + k) == [];
  }

  /** In a branch the search goes on in one slot; later slots are taken whole. */
  lemma SeekBranch(t: Trie, path: Key, k: Key)
    requires Shaped(t) && t.Branch? && k != []
    ensures Seek(t, path, k) == Seek(t.slots[k[0]], path + [k[0]], k[1..]) + SlotEntries(t.slots, k[0] as nat + 1, path)
  {
    var own := OwnValue(t.value, path);
    PrefixIsBefore(path, path + k);
    DropAll(own, SlotEntries(t.slots, 0, path), path + k);
    SeekSlots(t.slots, 0, path, k);
  }

  lemma {:induction false} SeekSlots(slots: seq<Trie>, i: nat, path: Key, k: Key)
    requires |slots| == 16 && forall j | 0 <= j < 16 :: Shaped(slots[j])
    requires k != [] && i <= k[0]
    ensures DropBefore(SlotEntries(slots, i, path), path + k)
         == Seek(slots[k[0]], path + [k[0]], k[1..]) + SlotEntries(slots, k[0] as nat + 1, path)
    decreases 16 - i
  {
    var here, later := Entries(slots[i], path + [i]), SlotEntries(slots, i + 1, path);
    if i < k[0] {
      SeekAside(slots[i], path, [i], k);
      forall m | 0 <= m < |here| ensures Before(here[m].key, path + k) {
        EntriesUnderPath(slots[i], path + [i], m);
        var x := here[m].key[|path| + 1..];
        assert here[m].key == path + ([i] + x);
        BeforeShift(path, [i] + x, k);
      }
      DropAll(here, later, path + k);
      SeekSlots(slots, i + 1, path, k);
    } else {
      assert path + [k[0]] + k[1..] == path + k;
      forall m | 0 <= m < |later| ensures !Before(later[m].key, path + k) {
        SlotEntriesUnderPath(slots, i + 1, path, m);
        var x := later[m].key[|path|..];
        assert later[m].key == path + x;
        BeforeShift(path, x, k);
        assert x[0] == later[m].key[|path|];
      }
      DropNone(here, later, path + k);
    }
  }
}
