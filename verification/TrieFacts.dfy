/**
  What the pure trie guarantees: insertion is map update and keeps the canonical shape, and a
  canonical trie is determined by the map it stores.
 */
module TrieFacts {
  import opened Bytes
  import opened Trie

  // ---------------------------------------------------------------- insertion is map update

  /** Splitting a pair changes no lookup. */
  lemma CleveKeepsLookups(t: Trie, s: nat, j: Key)
    requires Shaped(t)
    requires (t.Leaf? && 0 < s <= |t.key|) || (t.Ext? && 0 < s < |t.key|)
    ensures Shaped(Cleve(t, s)) && Lookup(Cleve(t, s), j) == Lookup(t, j)
  {
    var top, bottom := t.key[..s], t.key[s..];
    assert t.key == top + bottom;
    if top <= j {
      assert bottom <= j[s..] <==> t.key <= j by {
        if bottom <= j[s..] { assert j == top + j[s..]; }
      }
      if t.key <= j { assert j[s..][|bottom|..] == j[|t.key|..]; }
      if j[s..] == bottom { assert j == top + j[s..] == t.key; }
    }
  }

  /** Forking a pair changes no lookup. */
  lemma ForkKeepsLookups(t: Trie, j: Key)
    requires Shaped(t) && (t.Leaf? || t.Ext?)
    ensures Shaped(Fork(t)) && Lookup(Fork(t), j) == Lookup(t, j)
  {
    if t.key != [] && j != [] {
      assert t.key == [t.key[0]] + t.key[1..] && j == [j[0]] + j[1..];
      if j[0] == t.key[0] {
        assert Lookup(Fork(t), j) == Lookup(Fork(t).slots[j[0]], j[1..]);
        assert t.key[1..] <= j[1..] <==> t.key <= j;
        assert t.key[1..] == j[1..] <==> t.key == j;
        if t.key <= j { assert j[1..][|t.key| - 1..] == j[|t.key|..]; }
      }
    }
  }

  /** Inserting changes the value under the inserted key and under no other. */
  lemma {:induction false} MergeIsMapUpdate(t: Trie, k: Key, v: Bytes, j: Key)
    requires Shaped(t)
    ensures Shaped(Merge(t, k, v))
    ensures Lookup(Merge(t, k, v), j) == if j == k then v else Lookup(t, j)
    decreases |k|, Stage(t, k)
  {
    MergeShaped(t, k, v);
    match t
    case Empty =>
    case Branch(slots, _) =>
      if k != [] && j != [] {
        assert k == [k[0]] + k[1..] && j == [j[0]] + j[1..];
        MergeIsMapUpdate(slots[k[0]], k[1..], v, j[1..]);
      }
    case Leaf(key, _) =>
      if key != k { MergeThroughSplit(t, k, v, j); }
    case Ext(key, child) =>
      if key <= k {
        assert k == key + k[|key|..];
        if key <= j {
          assert j == key + j[|key|..];
          MergeIsMapUpdate(child, k[|key|..], v, j[|key|..]);
        }
      } else {
        MergeThroughSplit(t, k, v, j);
      }
  }

  /** The case of `MergeIsMapUpdate` in which a pair is first split or forked. */
  lemma {:induction false} MergeThroughSplit(t: Trie, k: Key, v: Bytes, j: Key)
    requires Shaped(t)
    requires (t.Leaf? && t.key != k) || (t.Ext? && !(t.key <= k))
    ensures Shaped(Merge(t, k, v))
    ensures Lookup(Merge(t, k, v), j) == if j == k then v else Lookup(t, j)
    decreases |k|, Stage(t, k), 0
  {
    MergeShaped(t, k, v);
    var s := Shared(k, t.key);
    if s > 0 {
      CleveKeepsLookups(t, s, j);
      MergeIsMapUpdate(Cleve(t, s), k, v, j);
    } else {
      ForkKeepsLookups(t, j);
      MergeIsMapUpdate(Fork(t), k, v, j);
    }
  }

  // ---------------------------------------------------------------- insertion keeps the shape

  lemma NothingSharedAfter(a: Key, b: Key)
    ensures Shared(a[Shared(a, b)..], b[Shared(a, b)..]) == 0
  {
    var s := Shared(a, b);
    if s < |a| && s < |b| {
      assert a[s..][0] == a[s] && b[s..][0] == b[s];
    }
  }

  lemma CommonPrefixIsShared(p: Key, a: Key, b: Key, n: nat)
    requires n <= |a| && n <= |b|
    ensures n < |p| && p <= a && p <= b ==> Shared(a[n..], b[n..]) > 0
  {
    if n < |p| && p <= a && p <= b {
      assert a[n..][0] == p[n] == b[n..][0];
    }
  }

  /** Replacing a slot of a forked branch by something keeps it forked. */
  lemma ForkedAfterFill(slots: seq<Trie>, value: Bytes, n: Nibble, c: Trie)
    requires |slots| == 16 && Forked(slots, value) && c != Empty
    ensures Forked(slots[n := c], value)
  {
    var i, j :| i != j && InUse(slots, value, i) && InUse(slots, value, j);
    assert InUse(slots[n := c], value, i) && InUse(slots[n := c], value, j);
  }

  lemma ForkedBy(slots: seq<Trie>, value: Bytes, i: int, j: int)
    requires |slots| == 16 && i != j && InUse(slots, value, i) && InUse(slots, value, j)
    ensures Forked(slots, value)
  {
  }

  /** Inserting a non-empty value keeps the trie canonical. */
  lemma {:induction false} MergeKeepsCanonical(t: Trie, k: Key, v: Bytes)
    requires Canonical(t) && v != []
    ensures Shaped(t) && Canonical(Merge(t, k, v)) && Merge(t, k, v) != Empty
    ensures t.Branch? ==> Merge(t, k, v).Branch?
    decreases |k|, Stage(t, k)
  {
    CanonicalIsShaped(t);
    match t
    case Empty =>
    case Branch(slots, value) =>
      if k == [] {
        var i, j :| i != j && InUse(slots, value, i) && InUse(slots, value, j);
        ForkedBy(slots, v, i, j);
      } else {
        MergeKeepsCanonical(slots[k[0]], k[1..], v);
        ForkedAfterFill(slots, value, k[0], Merge(slots[k[0]], k[1..], v));
      }
    case Leaf(key, _) =>
      if key != k { SplitMergeIsCanonical(t, k, v); }
    case Ext(key, child) =>
      if key <= k {
        MergeKeepsCanonical(child, k[|key|..], v);
      } else {
        SplitMergeIsCanonical(t, k, v);
      }
  }

  /** Inserting beside a pair whose key disagrees at once gives a forked branch. */
  lemma {:induction false} ForkMergeIsCanonical(t: Trie, k: Key, v: Bytes)
    requires Canonical(t) && v != [] && Shaped(t)
    requires (t.Leaf? && t.key != k) || (t.Ext? && !(t.key <= k))
    requires Shared(k, t.key) == 0
    ensures Canonical(Merge(t, k, v)) && Merge(t, k, v).Branch?
  {
    var f := Fork(t);
    ForkKeepsLookups(t, []);
    assert Canonical(Empty);
    var here := if t.key == [] then 16 else t.key[0];
    assert here < 16 ==> f.slots[here] != Empty;
    assert InUse(f.slots, f.value, here);
    assert forall i | 0 <= i < 16 :: i != here ==> f.slots[i] == Empty;
    assert forall i | 0 <= i < 16 :: Canonical(f.slots[i]);
    assert Merge(t, k, v) == Merge(f, k, v);
    if k == [] {
      ForkedBy(f.slots, v, here, 16);
    } else {
      assert t.key == [] || t.key[0] != k[0];
      assert Merge(f.slots[k[0]], k[1..], v) == Leaf(k[1..], v);
      ForkedBy(f.slots[k[0] := Leaf(k[1..], v)], f.value, here, k[0]);
    }
  }

  /** Inserting beside a pair whose key disagrees somewhere gives a canonical trie. */
  lemma {:induction false} SplitMergeIsCanonical(t: Trie, k: Key, v: Bytes)
    requires Canonical(t) && v != [] && Shaped(t)
    requires (t.Leaf? && t.key != k) || (t.Ext? && !(t.key <= k))
    ensures Canonical(Merge(t, k, v)) && Merge(t, k, v) != Empty && !Merge(t, k, v).Leaf?
  {
    hide Merge, Shared;
    var s := Shared(k, t.key);
    if s == 0 {
      ForkMergeIsCanonical(t, k, v);
    } else {
      MergeBelowSplit(t, k, v, s);
      NothingSharedAfter(k, t.key);
      ForkMergeIsCanonical(Cleve(t, s).child, k[s..], v);
    }
  }

  lemma MergeBelowSplit(t: Trie, k: Key, v: Bytes, s: nat)
    requires v != [] && Shaped(t) && ((t.Leaf? && t.key != k) || (t.Ext? && !(t.key <= k)))
    requires s == Shared(k, t.key) > 0
    ensures var top := Cleve(t, s);
      Shaped(top) && top.Ext? && Merge(t, k, v) == Ext(top.key, Merge(top.child, k[s..], v))
  {
    CleveKeepsLookups(t, s, []);
    NothingSharedAfter(k, t.key);
    assert k == k[..s] + k[s..];
    assert Merge(t, k, v) == Merge(Cleve(t, s), k, v);
  }

  // ---------------------------------------------------------------- a canonical trie is its map

  ghost predicate Stores(t: Trie, k: Key)
    requires Shaped(t)
  {
    Lookup(t, k) != []
  }

  /** A canonical trie other than the empty one stores some key. */
  lemma {:induction false} HasKey(t: Trie) returns (k: Key)
    requires Canonical(t) && t != Empty
    ensures Shaped(t) && Stores(t, k)
  {
    CanonicalIsShaped(t);
    match t
    case Leaf(key, _) => k := key;
    case Ext(key, child) =>
      var rest := HasKey(child);
      k := key + rest;
      assert k[|key|..] == rest;
    case Branch(slots, value) =>
      var i :| InUse(slots, value, i);
      k := KeyInEntry(t, i);
  }

  /** An occupied entry of a canonical branch leads to a key that starts there. */
  lemma {:induction false} KeyInEntry(t: Trie, i: int) returns (k: Key)
    requires Canonical(t) && t.Branch? && InUse(t.slots, t.value, i)
    ensures Shaped(t) && Stores(t, k)
    ensures if i == 16 then k == [] else k != [] && k[0] == i
    decreases t, 0
  {
    CanonicalIsShaped(t);
    if i == 16 {
      k := [];
    } else {
      var rest := HasKey(t.slots[i]);
      k := [i] + rest;
      assert k[1..] == rest;
    }
  }

  /** Two stored keys of a canonical branch part at once. */
  lemma {:induction false} BranchParts(t: Trie) returns (a: Key, b: Key)
    requires Canonical(t) && t.Branch?
    ensures Shaped(t) && Stores(t, a) && Stores(t, b)
    ensures a != b && Shared(a, b) == 0
  {
    var i, j :| i != j && InUse(t.slots, t.value, i) && InUse(t.slots, t.value, j);
    a := KeyInEntry(t, i);
    b := KeyInEntry(t, j);
  }

  ghost predicate SameLookups(a: Trie, b: Trie)
    requires Shaped(a) && Shaped(b)
  {
    forall k :: Lookup(a, k) == Lookup(b, k)
  }

  /** The keys of an extension part exactly where its own key ends. */
  lemma {:induction false} ExtParts(t: Trie) returns (a: Key, b: Key)
    requires Canonical(t) && t.Ext?
    ensures Shaped(t) && Stores(t, a) && Stores(t, b)
    ensures a != b && t.key <= a && t.key <= b && Shared(a[|t.key|..], b[|t.key|..]) == 0
  {
    CanonicalIsShaped(t);
    var a', b' := BranchParts(t.child);
    a, b := t.key + a', t.key + b';
    assert a[|t.key|..] == a' && b[|t.key|..] == b';
  }

  /** Tries that answer every lookup alike are both empty or neither, and both branches or neither. */
  lemma {:induction false} KindsAgree(a: Trie, b: Trie)
    requires Canonical(a) && Canonical(b)
    requires Shaped(a) && Shaped(b) && SameLookups(a, b)
    ensures a != Empty ==> b != Empty
    ensures a.Branch? ==> b.Branch?
  {
    if a != Empty {
      var k := HasKey(a);
      assert Lookup(b, k) == Lookup(a, k);
    }
    if a.Branch? {
      var c, d := BranchParts(a);
      assert Lookup(b, c) == Lookup(a, c) && Lookup(b, d) == Lookup(a, d);
    }
  }

  /** Alike to an extension is only an extension, and its key is no longer. */
  lemma {:induction false} ExtIsNotOther(t: Trie, u: Trie)
    requires Canonical(t) && t.Ext? && Canonical(u)
    requires Shaped(t) && Shaped(u) && SameLookups(t, u)
    ensures u.Ext? && u.key <= t.key
  {
    KindsAgree(u, t);
    var a, b := ExtParts(t);
    assert Lookup(u, a) == Lookup(t, a) && Lookup(u, b) == Lookup(t, b);
    if u.Ext? {
      CommonPrefixIsShared(u.key, a, b, |t.key|);
      assert u.key == a[..|u.key|] && t.key == a[..|t.key|];
    }
  }

  /** Two canonical tries that answer every lookup alike are the same trie. */
  lemma {:induction false} CanonicalIsUnique(a: Trie, b: Trie)
    requires Canonical(a) && Canonical(b)
    requires Shaped(a) && Shaped(b) && SameLookups(a, b)
    ensures a == b
    decreases a, 1
  {
    assert SameLookups(b, a);
    KindsAgree(a, b);
    KindsAgree(b, a);
    if a.Ext? || b.Ext? {
      UniqueExt(a, b);
    } else if a.Branch? && b.Branch? {
      UniqueBranch(a, b);
    } else if a.Leaf? && b.Leaf? {
      assert Lookup(b, a.key) == Lookup(a, a.key);
    }
  }

  lemma {:induction false} UniqueExt(a: Trie, b: Trie)
    requires Canonical(a) && Canonical(b) && (a.Ext? || b.Ext?)
    requires Shaped(a) && Shaped(b) && SameLookups(a, b)
    ensures a == b
    decreases a, 0
  {
    assert SameLookups(b, a);
    if a.Ext? { ExtIsNotOther(a, b); }
    if b.Ext? { ExtIsNotOther(b, a); }
    assert a.key == b.key;
    forall k ensures Lookup(a.child, k) == Lookup(b.child, k) {
      assert (a.key + k)[|a.key|..] == k;
      assert Lookup(a, a.key + k) == Lookup(b, a.key + k);
    }
    CanonicalIsUnique(a.child, b.child);
  }

  lemma {:induction false} UniqueBranch(a: Trie, b: Trie)
    requires Canonical(a) && Canonical(b) && a.Branch? && b.Branch?
    requires Shaped(a) && Shaped(b) && SameLookups(a, b)
    ensures a == b
    decreases a, 0
  {
    assert Lookup(a, []) == Lookup(b, []);
    forall i | 0 <= i < 16 ensures a.slots[i] == b.slots[i] {
      forall k ensures Lookup(a.slots[i], k) == Lookup(b.slots[i], k) {
        assert ([i] + k)[1..] == k;
        assert Lookup(a, [i] + k) == Lookup(b, [i] + k);
      }
      CanonicalIsUnique(a.slots[i], b.slots[i]);
    }
  }

  // ---------------------------------------------------------------- the trie of a map

  type Store = map<Key, Bytes>

  /** No stored value is empty: an empty answer is how `at` reports absence. */
  predicate NonEmptyValues(m: Store) {
    forall k | k in m :: m[k] != []
  }

  function ValueAt(m: Store, k: Key): Bytes {
    if k in m then m[k] else []
  }

  ghost predicate Represents(t: Trie, m: Store)
    requires Shaped(t)
  {
    forall k :: Lookup(t, k) == ValueAt(m, k)
  }

  /** Every map with non-empty values has a canonical trie. */
  lemma {:induction false} TrieExists(m: Store) returns (t: Trie)
    requires NonEmptyValues(m)
    ensures Canonical(t) && Shaped(t) && Represents(t, m)
    decreases |m|
  {
    if m == map[] {
      t := Empty;
    } else {
      var k :| k in m;
      var rest := m - {k};
      assert |rest| < |m| by { assert rest.Keys == m.Keys - {k}; }
      var u := TrieExists(rest);
      t := Merge(u, k, m[k]);
      MergeKeepsCanonical(u, k, m[k]);
      CanonicalIsShaped(t);
      forall j ensures Lookup(t, j) == ValueAt(m, j) {
        MergeIsMapUpdate(u, k, m[k], j);
        assert Lookup(u, j) == ValueAt(rest, j);
      }
    }
  }

  /** The one canonical trie that stores exactly the map `m`. */
  ghost function TrieOf(m: Store): (t: Trie)
    requires NonEmptyValues(m)
    ensures Canonical(t) && Shaped(t) && Represents(t, m)
  {
    assert exists t :: Canonical(t) && Shaped(t) && Represents(t, m) by {
      var t := TrieExists(m);
    }
    var t :| Canonical(t) && Shaped(t) && Represents(t, m);
    t
  }

  /** Any canonical trie that stores `m`, however it was built, is the trie of `m`. */
  lemma TrieOfIsUnique(t: Trie, m: Store)
    requires NonEmptyValues(m) && Canonical(t) && Shaped(t) && Represents(t, m)
    ensures t == TrieOf(m)
  {
    forall k ensures Lookup(t, k) == Lookup(TrieOf(m), k) {
      assert Lookup(t, k) == ValueAt(m, k);
    }
    CanonicalIsUnique(t, TrieOf(m));
  }

  /** Inserting into the trie of a map gives the trie of the updated map. */
  lemma InsertIntoTrieOf(m: Store, k: Key, v: Bytes)
    requires NonEmptyValues(m) && v != []
    ensures NonEmptyValues(m[k := v])
    ensures Merge(TrieOf(m), k, v) == TrieOf(m[k := v])
  {
    var t := TrieOf(m);
    MergeKeepsCanonical(t, k, v);
    var u := Merge(t, k, v);
    CanonicalIsShaped(u);
    forall j ensures Lookup(u, j) == ValueAt(m[k := v], j) {
      MergeIsMapUpdate(t, k, v, j);
      assert Lookup(t, j) == ValueAt(m, j);
    }
    TrieOfIsUnique(u, m[k := v]);
  }
}
