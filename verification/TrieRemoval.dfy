/**
  Removal is map deletion and keeps the canonical shape, and it goes wrong exactly when
  `RemovalFails` and `RemovalStrays` say so, of the stored map and the hashes in the store.
 */
module TrieRemoval {
  import opened Astray
  import opened Bytes
  import opened Items
  import opened Trie
  import opened TrieFacts

  // ---------------------------------------------------------------- removal is map deletion

  lemma AttachLookup(key: Key, child: Trie, j: Key)
    requires Shaped(child) && key != []
    ensures Shaped(Attach(key, child))
    ensures Lookup(Attach(key, child), j) == if key <= j then Lookup(child, j[|key|..]) else []
  {
    if child.Leaf? || child.Ext? {
      assert key + child.key <= j <==> key <= j && child.key <= j[|key|..] by {
        if key <= j && child.key <= j[|key|..] { assert j == key + j[|key|..]; }
      }
      if key + child.key <= j { assert j[|key + child.key|..] == j[|key|..][|child.key|..]; }
      if key <= j && j[|key|..] == child.key { assert j == key + child.key; }
    }
  }

  lemma AttachIsCanonical(key: Key, child: Trie)
    requires Canonical(child) && child != Empty && key != []
    ensures Canonical(Attach(key, child)) && Attach(key, child) != Empty
  {
  }

  /** A forked branch stays forked after its value is removed, unless one slot is left alone. */
  lemma ForkedWithoutValue(slots: seq<Trie>, value: Bytes)
    requires |slots| == 16 && Forked(slots, value) && UniqueInUse(slots, value, 16) == 255
    ensures Forked(slots, [])
  {
    var i, j :| i != j && InUse(slots, value, i) && InUse(slots, value, j);
    var a := if i == 16 then j else i;
    assert !SoleEntry(slots, value, 16, a);
    var b :| b != a && b != 16 && InUse(slots, value, b);
    ForkedBy(slots, [], a, b);
  }

  /** A forked branch stays forked after a slot changes, unless one entry is left alone. */
  lemma ForkedAfterChange(slots: seq<Trie>, value: Bytes, n: Nibble, c: Trie)
    requires |slots| == 16 && Forked(slots, value)
    requires UniqueInUse(slots[n := c], value, 255) == 255
    ensures Forked(slots[n := c], value)
  {
    var i, j :| i != j && InUse(slots, value, i) && InUse(slots, value, j);
    var a := if i == n then j else i;
    assert InUse(slots[n := c], value, a);
    assert !SoleEntry(slots[n := c], value, 255, a);
    var b :| b != a && InUse(slots[n := c], value, b);
    ForkedBy(slots[n := c], value, a, b);
  }

  /** Settling a changed branch keeps its lookups and the canonical shape. */
  lemma {:induction false} SettleIsFaithful(slots: seq<Trie>, value: Bytes, n: Nibble, c: Trie, j: Key, names: Names)
    requires |slots| == 16 && Forked(slots, value)
    requires forall i | 0 <= i < 16 :: Canonical(slots[i])
    requires Canonical(c)
    requires Settle(slots[n := c], value, names).Removed?
    ensures var u := Settle(slots[n := c], value, names).t;
      && Canonical(u) && u != Empty && Shaped(u) && Shaped(Branch(slots[n := c], value))
      && Lookup(u, j) == Lookup(Branch(slots[n := c], value), j)
  {
    var slots' := slots[n := c];
    forall i | 0 <= i < 16 ensures Shaped(slots'[i]) { CanonicalIsShaped(slots'[i]); }
    var used := UniqueInUse(slots', value, 255);
    if used == 255 {
      ForkedAfterChange(slots, value, n, c);
    } else if used == 16 {
      if j != [] { assert !InUse(slots', value, j[0]); }
    } else {
      AttachLookup([used], slots'[used], j);
      AttachIsCanonical([used], slots'[used]);
      assert !InUse(slots', value, 16);
      if j != [] && j[0] != used { assert !InUse(slots', value, j[0]); }
    }
    CanonicalIsShaped(Settle(slots', value, names).t);
  }

  /** Dropping the value of a forked branch keeps its other lookups and the canonical shape. */
  lemma {:induction false} DropValueIsFaithful(t: Trie, j: Key, names: Names)
    requires Canonical(t) && t.Branch? && t.value != [] && Shaped(t)
    ensures var r := Delete(t, [], names);
      && r.Removed? && Canonical(r.t) && r.t != Empty && Shaped(r.t)
      && Lookup(r.t, j) == if j == [] then [] else Lookup(t, j)
  {
    var used := UniqueInUse(t.slots, t.value, 16);
    if used == 255 {
      ForkedWithoutValue(t.slots, t.value);
    } else {
      AttachLookup([used], t.slots[used], j);
      AttachIsCanonical([used], t.slots[used]);
      if j != [] && j[0] != used { assert !InUse(t.slots, t.value, j[0]); }
    }
    CanonicalIsShaped(Delete(t, [], names).t);
  }

  /** Removing takes away the value under the removed key and under no other. */
  lemma {:induction false} DeleteIsMapDeletion(t: Trie, k: Key, j: Key, names: Names)
    requires Canonical(t) && Shaped(t)
    ensures var r := Delete(t, k, names);
      && (r.NotFound? ==> !Stores(t, k))
      && (r.Removed? ==>
            && Stores(t, k) && Canonical(r.t) && Shaped(r.t)
            && (r.t == Empty ==> t.Leaf?)
            && Lookup(r.t, j) == if j == k then [] else Lookup(t, j))
  {
    match t
    case Empty =>
    case Leaf(_, _) =>
    case Ext(key, child) =>
      if key <= k {
        assert k == key + k[|key|..];
        var j' := if key <= j then j[|key|..] else [];
        if key <= j { assert j == key + j'; }
        DeleteIsMapDeletion(child, k[|key|..], j', names);
        var r := Delete(child, k[|key|..], names);
        if r.Removed? {
          AttachLookup(key, r.t, j);
          AttachIsCanonical(key, r.t);
        }
      }
    case Branch(slots, value) =>
      if k == [] {
        if value != [] { DropValueIsFaithful(t, j, names); }
      } else {
        assert k == [k[0]] + k[1..];
        if j != [] { assert j == [j[0]] + j[1..]; }
        DeleteIsMapDeletion(slots[k[0]], k[1..], if j != [] then j[1..] else [], names);
        var r := Delete(slots[k[0]], k[1..], names);
        if r.Removed? && Delete(t, k, names).Removed? {
          SettleIsFaithful(slots, value, k[0], r.t, j, names);
        }
      }
  }

  // ---------------------------------------------------------------- when removal goes wrong

  /** `p` is stored, is a proper prefix of `k`, and no other stored key but `k` extends it. */
  ghost predicate Lonely(t: Trie, k: Key, p: Key)
    requires Shaped(t)
  {
    p < k && Stores(t, p) && forall j :: Stores(t, j) && p <= j ==> j == p || j == k
  }

  /** `k` is not stored, and two stored keys extend it and part right after it. */
  ghost predicate PartsAfter(t: Trie, k: Key, a: Key, b: Key)
    requires Shaped(t)
  {
    !Stores(t, k) && k < a && k < b && Stores(t, a) && Stores(t, b) && a[|k|] != b[|k|]
  }

  /**
    How the value of the lonely prefix is read: for the node below its leaf when `k` is not stored,
    for a pair to fuse with when it is and nothing but the value is left.
   */
  function ReadAs(v: Bytes, rest: Key, stored: bool, names: Names): Removal {
    if stored then ReadAsPair(v, names) else ReadAsChild(v, rest, names)
  }

  /** Some lonely prefix of `k` has a value that is read as `r`. */
  ghost predicate Misreads(t: Trie, k: Key, names: Names, r: Removal)
    requires Shaped(t)
  {
    exists p :: Lonely(t, k, p) && ReadAs(Lookup(t, p), k[|p|..], Stores(t, k), names) == r
  }

  ghost predicate Parts(t: Trie, k: Key)
    requires Shaped(t)
  {
    exists a, b :: PartsAfter(t, k, a, b)
  }

  /** `s` answers for the keys of `t` that start with `q`. */
  ghost predicate Under(t: Trie, q: Key, s: Trie)
    requires Shaped(t) && Shaped(s)
  {
    forall j :: Lookup(t, q + j) == Lookup(s, j)
  }

  lemma UnderExt(t: Trie)
    requires Shaped(t) && t.Ext?
    ensures Under(t, t.key, t.child)
  {
    forall j ensures Lookup(t, t.key + j) == Lookup(t.child, j) {
      assert (t.key + j)[|t.key|..] == j;
    }
  }

  lemma UnderSlot(t: Trie, n: Nibble)
    requires Shaped(t) && t.Branch?
    ensures Under(t, [n], t.slots[n])
  {
    forall j ensures Lookup(t, [n] + j) == Lookup(t.slots[n], j) {
      assert ([n] + j)[1..] == j;
    }
  }

  /** A key of `t` that starts with `q` is `q` followed by a key of `s`. */
  lemma StoredUnder(t: Trie, q: Key, s: Trie, j: Key)
    requires Shaped(t) && Shaped(s) && Under(t, q, s) && q <= j
    ensures j == q + j[|q|..] && (Stores(t, j) <==> Stores(s, j[|q|..]))
  {
    assert j == q + j[|q|..];
  }

  lemma PrefixShift(q: Key, p: Key, k: Key)
    ensures q + p <= q + k <==> p <= k
    ensures q + p == q + k <==> p == k
  {
    assert (q + p)[|q|..] == p && (q + k)[|q|..] == k;
    if q + p <= q + k {
      assert p == (q + k)[..|q + p|][|q|..] == k[..|p|];
    }
  }

  /** The keys of `t` that start with `q + p` are the keys of `s` that start with `p`. */
  lemma ExtendersUnder(t: Trie, q: Key, s: Trie, p: Key, k: Key)
    requires Shaped(t) && Shaped(s) && Under(t, q, s)
    ensures (forall j :: Stores(s, j) && p <= j ==> j == p || j == k)
       <==> (forall j :: Stores(t, j) && q + p <= j ==> j == q + p || j == q + k)
  {
    if forall j :: Stores(s, j) && p <= j ==> j == p || j == k {
      forall j | Stores(t, j) && q + p <= j ensures j == q + p || j == q + k {
        assert q <= q + p <= j;
        StoredUnder(t, q, s, j);
        PrefixShift(q, p, j[|q|..]);
      }
    }
    if forall j :: Stores(t, j) && q + p <= j ==> j == q + p || j == q + k {
      forall j | Stores(s, j) && p <= j ensures j == p || j == k {
        PrefixShift(q, p, j);
        PrefixShift(q, j, k);
        PrefixShift(q, j, p);
        assert Stores(t, q + j);
      }
    }
  }

  lemma LonelyUnder(t: Trie, q: Key, s: Trie, k: Key, p: Key)
    requires Shaped(t) && Shaped(s) && Under(t, q, s)
    ensures Lonely(s, k, p) <==> Lonely(t, q + k, q + p)
    ensures Lookup(t, q + p) == Lookup(s, p) && (Stores(t, q + k) <==> Stores(s, k))
    ensures p <= k ==> (q + k)[|q + p|..] == k[|p|..]
  {
    PrefixShift(q, p, k);
    assert Lookup(t, q + p) == Lookup(s, p) && Lookup(t, q + k) == Lookup(s, k);
    ExtendersUnder(t, q, s, p, k);
  }

  lemma PartsAfterUnder(t: Trie, q: Key, s: Trie, k: Key, a: Key, b: Key)
    requires Shaped(t) && Shaped(s) && Under(t, q, s)
    ensures PartsAfter(s, k, a, b) <==> PartsAfter(t, q + k, q + a, q + b)
  {
    assert Lookup(t, q + k) == Lookup(s, k) && Lookup(t, q + a) == Lookup(s, a) && Lookup(t, q + b) == Lookup(s, b);
    PrefixShift(q, k, a);
    PrefixShift(q, k, b);
  }

  /** Stored keys part behind `q + k` exactly when they part behind `k` in the part under `q`. */
  lemma PartsUnder(t: Trie, q: Key, s: Trie, k: Key)
    requires Shaped(t) && Shaped(s) && Under(t, q, s)
    ensures Parts(t, q + k) <==> Parts(s, k)
  {
    hide PartsAfter, Under, Shaped;
    forall a, b | PartsAfter(s, k, a, b) ensures PartsAfter(t, q + k, q + a, q + b) {
      PartsAfterUnder(t, q, s, k, a, b);
    }
    forall a, b | PartsAfter(t, q + k, a, b) ensures Parts(s, k) {
      PartsExtend(t, q, k, a, b);
      PartsAfterUnder(t, q, s, k, a[|q|..], b[|q|..]);
    }
  }

  lemma PartsExtend(t: Trie, q: Key, k: Key, a: Key, b: Key)
    requires Shaped(t) && PartsAfter(t, q + k, a, b)
    ensures q <= a && q <= b && a == q + a[|q|..] && b == q + b[|q|..]
  {
    assert q == (q + k)[..|q|] == a[..|q|] == b[..|q|];
  }

  /** A value misread in the part under `q` is one misread in the trie. */
  lemma MisreadsRise(t: Trie, q: Key, s: Trie, k: Key, names: Names, r: Removal)
    requires Shaped(t) && Shaped(s) && Under(t, q, s) && Misreads(s, k, names, r)
    ensures Misreads(t, q + k, names, r)
  {
    hide ReadAs, Under, Lookup, Shaped;
    var p :| Lonely(s, k, p) && ReadAs(Lookup(s, p), k[|p|..], Stores(s, k), names) == r;
    LonelyUnder(t, q, s, k, p);
    assert Lonely(t, q + k, q + p);
  }

  /** A value misread in the trie is misread in the part under `q`, or belongs to a key shorter than `q`. */
  lemma MisreadsSink(t: Trie, q: Key, s: Trie, k: Key, names: Names, r: Removal)
    requires Shaped(t) && Shaped(s) && Under(t, q, s) && Misreads(t, q + k, names, r)
    ensures Misreads(s, k, names, r) || exists p :: |p| < |q| && Lonely(t, q + k, p)
  {
    hide ReadAs, Under, Lookup, Shaped;
    var p :| Lonely(t, q + k, p) && ReadAs(Lookup(t, p), (q + k)[|p|..], Stores(t, q + k), names) == r;
    if |p| >= |q| {
      assert p == q + p[|q|..];
      LonelyUnder(t, q, s, k, p[|q|..]);
    }
  }

  /** Removal throws, and strays, for exactly the keys and stores described. */
  ghost predicate Described(t: Trie, k: Key, names: Names)
    requires Shaped(t)
  {
    && (Delete(t, k, names).Fault? <==> Parts(t, k) || Misreads(t, k, names, Fault))
    && (Delete(t, k, names).Stray? <==> Misreads(t, k, names, Stray))
  }

  lemma {:induction false} DeleteFaults(t: Trie, k: Key, names: Names)
    requires Canonical(t) && Shaped(t)
    ensures Described(t, k, names)
  {
    match t
    case Empty =>
    case Leaf(_, _) => LeafDescribed(t, k, names);
    case Ext(key, child) =>
      if key <= k { DeleteFaults(child, k[|key|..], names); }
      ExtDescribed(t, k, names);
    case Branch(slots, value) =>
      if k == [] {
        BranchDescribedAtEnd(t, names);
      } else {
        DeleteFaults(slots[k[0]], k[1..], names);
        BranchDescribedBelow(t, k, names);
      }
  }

  lemma LeafDescribed(t: Trie, k: Key, names: Names)
    requires Canonical(t) && Shaped(t) && t.Leaf?
    ensures Described(t, k, names)
  {
    if t.key != k && t.key <= k { assert Lonely(t, k, t.key); }
  }

  lemma ExtDescribed(t: Trie, k: Key, names: Names)
    requires Canonical(t) && Shaped(t) && t.Ext?
    requires t.key <= k ==> Described(t.child, k[|t.key|..], names)
    ensures Described(t, k, names)
  {
    if t.key <= k {
      var k' := k[|t.key|..];
      assert k == t.key + k';
      UnderExt(t);
      PartsUnder(t, t.key, t.child, k');
      NothingShorter(t, k);
      forall r | r == Fault || r == Stray ensures Misreads(t, k, names, r) <==> Misreads(t.child, k', names, r) {
        if Misreads(t.child, k', names, r) { MisreadsRise(t, t.key, t.child, k', names, r); }
        if Misreads(t, k, names, r) { MisreadsSink(t, t.key, t.child, k', names, r); }
      }
      assert Misreads(t, k, names, Fault) <==> Misreads(t.child, k', names, Fault);
      assert Misreads(t, k, names, Stray) <==> Misreads(t.child, k', names, Stray);
    } else {
      NothingPartsAside(t, k);
    }
  }

  /** Every key of an extension has its key in front, so that no shorter one is stored. */
  lemma NothingShorter(t: Trie, k: Key)
    requires Shaped(t) && t.Ext?
    ensures forall p | |p| < |t.key| :: !Lonely(t, k, p)
  {
  }

  /** Off an extension no key is blamed. */
  lemma NothingPartsAside(t: Trie, k: Key)
    requires Shaped(t) && t.Ext? && !(t.key <= k)
    ensures !Parts(t, k) && forall p :: !Lonely(t, k, p)
  {
    forall p ensures !Lonely(t, k, p) {
      PrefixTransitive(t.key, p, k);
    }
    forall a, b ensures !PartsAfter(t, k, a, b) {
      PrefixesCompare(t.key, k, a);
      assert t.key <= a && t.key <= b && |k| < |t.key| ==> a[|k|] == t.key[|k|] == b[|k|];
    }
  }

  lemma PrefixTransitive(a: Key, b: Key, c: Key)
    ensures a <= b && b <= c ==> a <= c
  {
  }

  /** Of two prefixes of a key the shorter is a prefix of the longer. */
  lemma PrefixesCompare(a: Key, b: Key, c: Key)
    ensures a <= c && b <= c && |a| <= |b| ==> a <= b
  {
    assert a <= c && b <= c && |a| <= |b| ==> a == c[..|a|] && b == c[..|b|] && c[..|b|][..|a|] == c[..|a|];
  }

  lemma LonelyIsUnique(t: Trie, k: Key, p: Key, q: Key)
    requires Shaped(t)
    ensures Lonely(t, k, p) && Lonely(t, k, q) ==> p == q
  {
    PrefixesCompare(p, q, k);
    PrefixesCompare(q, p, k);
  }

  lemma {:induction false} BranchDescribedAtEnd(t: Trie, names: Names)
    requires Canonical(t) && Shaped(t) && t.Branch?
    ensures Described(t, [], names)
  {
    var a, b := BranchParts(t);
    if t.value == [] {
      assert PartsAfter(t, [], a, b);
    }
  }

  /** At the top of a forked branch only the empty key can be lonely, and only for a stored key. */
  lemma {:induction false} LonelyAtTop(t: Trie, k: Key)
    requires Canonical(t) && Shaped(t) && t.Branch?
    ensures Lonely(t, k, []) ==> Stores(t, k)
  {
    var a, b := BranchParts(t);
    assert [] <= a && [] <= b;
  }

  lemma {:induction false} BranchDescribedBelow(t: Trie, k: Key, names: Names)
    requires Canonical(t) && Shaped(t) && t.Branch? && k != []
    requires Described(t.slots[k[0]], k[1..], names)
    ensures Described(t, k, names)
  {
    var s, k' := t.slots[k[0]], k[1..];
    assert k == [k[0]] + k';
    UnderSlot(t, k[0]);
    PartsUnder(t, [k[0]], s, k');
    LonelyAtTop(t, k);
    DeleteIsMapDeletion(s, k', k', names);
    assert Stores(t, k) <==> Stores(s, k') by { assert Lookup(t, [k[0]] + k') == Lookup(s, k'); }
    forall r | r == Fault || r == Stray
      ensures Misreads(t, k, names, r) <==> Misreads(s, k', names, r) || AtTop(t, k, names, r)
    {
      MisreadsSplit(t, k, names, r);
    }
    assert Misreads(t, k, names, Fault) <==> Misreads(s, k', names, Fault) || AtTop(t, k, names, Fault);
    assert Misreads(t, k, names, Stray) <==> Misreads(s, k', names, Stray) || AtTop(t, k, names, Stray);
    var r := Delete(s, k', names);
    if r.Removed? {
      StrandedAtTop(t, k, names);
    } else if Lonely(t, k, []) {
      LonelyIsRemoved(t, k, names);
    }
  }

  /** The empty key is the one whose value is misread. */
  ghost predicate AtTop(t: Trie, k: Key, names: Names, r: Removal)
    requires Shaped(t)
  {
    Lonely(t, k, []) && ReadAs(Lookup(t, []), k, Stores(t, k), names) == r
  }

  lemma MisreadsSplit(t: Trie, k: Key, names: Names, r: Removal)
    requires Shaped(t) && t.Branch? && k != []
    ensures Misreads(t, k, names, r) <==> Misreads(t.slots[k[0]], k[1..], names, r) || AtTop(t, k, names, r)
  {
    hide ReadAs, Lookup;
    var s, k' := t.slots[k[0]], k[1..];
    assert k == [k[0]] + k';
    UnderSlot(t, k[0]);
    if Misreads(s, k', names, r) { MisreadsRise(t, [k[0]], s, k', names, r); }
    if p :| Lonely(t, k, p) && ReadAs(Lookup(t, p), k[|p|..], Stores(t, k), names) == r {
      if p != [] {
        assert p[0] == k[0] && p == [k[0]] + p[1..];
        LonelyUnder(t, [k[0]], s, k', p[1..]);
      }
    }
  }

  /** When only the value stays behind, the removal below has gone well. */
  lemma {:induction false} LonelyIsRemoved(t: Trie, k: Key, names: Names)
    requires Canonical(t) && Shaped(t) && t.Branch? && k != []
    requires Described(t.slots[k[0]], k[1..], names) && Lonely(t, k, [])
    ensures Delete(t.slots[k[0]], k[1..], names).Removed?
  {
    var s, k' := t.slots[k[0]], k[1..];
    assert k == [k[0]] + k';
    UnderSlot(t, k[0]);
    LonelyAtTop(t, k);
    assert Stores(s, k') by { assert Lookup(t, [k[0]] + k') == Lookup(s, k'); }
    DeleteIsMapDeletion(s, k', k', names);
    forall p ensures !Lonely(s, k', p) {
      LonelyUnder(t, [k[0]], s, k', p);
      LonelyIsUnique(t, k, [], [k[0]] + p);
    }
  }

  /** After the removal under slot `k[0]`, only the value is left iff the empty key is lonely. */
  lemma {:induction false} StrandedAtTop(t: Trie, k: Key, names: Names)
    requires Canonical(t) && Shaped(t) && t.Branch? && k != []
    requires Delete(t.slots[k[0]], k[1..], names).Removed?
    ensures Stores(t, k)
    ensures var slots' := t.slots[k[0] := Delete(t.slots[k[0]], k[1..], names).t];
      UniqueInUse(slots', t.value, 255) == 16 <==> Lonely(t, k, [])
    ensures Lonely(t, k, []) ==> Delete(t.slots[k[0]], k[1..], names).t == Empty
  {
    var n, k' := k[0], k[1..];
    var c := Delete(t.slots[n], k', names).t;
    var slots' := t.slots[n := c];
    DeleteIsMapDeletion(t.slots[n], k', k', names);
    assert Stores(t, k);
    var used := UniqueInUse(slots', t.value, 255);
    if used == 16 {
      forall j | Stores(t, j) ensures j == [] || j == k {
        if j != [] {
          assert !InUse(slots', t.value, j[0]) && slots'[j[0]] == Empty;
          assert Lookup(t, j) == Lookup(t.slots[j[0]], j[1..]);
          assert j[0] == n;
          DeleteIsMapDeletion(t.slots[n], k', j[1..], names);
          assert j == [j[0]] + j[1..] && k == [n] + k';
        }
      }
    }
    if Lonely(t, k, []) {
      forall j | Stores(t, j) ensures j == [] || j == k {
        assert [] <= j;
      }
      forall i | 0 <= i < 16 ensures slots'[i] == Empty {
        KeyLeftBehind(t, k, i, names);
      }
      assert SoleEntry(slots', t.value, 255, 16);
      SoleIsUnique(slots', t.value, 255, 16, used);
      assert slots'[n] == c;
    }
  }

  lemma SoleIsUnique(slots: seq<Trie>, value: Bytes, except: int, i: int, used: int)
    requires |slots| == 16 && SoleEntry(slots, value, except, i)
    requires used == UniqueInUse(slots, value, except)
    ensures used == i
  {
  }

  /** A slot still occupied after the removal of `k` holds a stored key other than `k`. */
  lemma {:induction false} KeyLeftBehind(t: Trie, k: Key, i: int, names: Names)
    requires Canonical(t) && Shaped(t) && t.Branch? && k != [] && 0 <= i < 16
    requires Delete(t.slots[k[0]], k[1..], names).Removed?
    ensures t.slots[k[0] := Delete(t.slots[k[0]], k[1..], names).t][i] == Empty || exists j :: Stores(t, j) && j != [] && j != k
  {
    var c := Delete(t.slots[k[0]], k[1..], names).t;
    DeleteIsMapDeletion(t.slots[k[0]], k[1..], [], names);
    var s := if i == k[0] then c else t.slots[i];
    if s != Empty {
      var j := HasKey(s);
      DeleteIsMapDeletion(t.slots[k[0]], k[1..], j, names);
      var full := [i] + j;
      assert full[1..] == j && full[0] == i;
      assert Lookup(t, full) == Lookup(t.slots[i], j);
      assert Stores(t, full) && full != k;
    }
  }

  // ---------------------------------------------------------------- in terms of the map

  ghost predicate NothingElseExtends(m: Store, p: Key, k: Key) {
    forall j :: j in m && p <= j ==> j == p || j == k
  }

  /** Some stored prefix of `k` that nothing but `k` extends has a value that is read as `r`. */
  ghost predicate RemovalReads(m: Store, k: Key, names: Names, r: Removal) {
    exists p :: p in m && p < k && NothingElseExtends(m, p, k) && ReadAs(m[p], k[|p|..], k in m, names) == r
  }

  ghost predicate KeysPart(m: Store, k: Key, a: Key, b: Key) {
    k !in m && a in m && b in m && k < a && k < b && a[|k|] != b[|k|]
  }

  /**
    A removal throws for a key that is not stored but behind which stored keys part, and for one
    that extends a stored key which nothing else extends, if that key's value is too long for a
    hash, or, the key to remove not being stored, if it is the hash of nothing or of a node in
    which removing the rest of the key throws.
   */
  ghost predicate RemovalFails(m: Store, k: Key, names: Names) {
    (exists a, b :: KeysPart(m, k, a, b)) || RemovalReads(m, k, names, Fault)
  }

  /**
    A removal goes astray for a key that extends a stored key which nothing else extends, if that
    key's value is the hash of a stored node: of a pair, if the key to remove is stored, and else of
    a node in which the rest of the key is found.
   */
  ghost predicate RemovalStrays(m: Store, k: Key, names: Names) {
    RemovalReads(m, k, names, Stray)
  }

  lemma ReadsAreMisreads(m: Store, k: Key, names: Names, r: Removal)
    requires NonEmptyValues(m)
    ensures Misreads(TrieOf(m), k, names, r) <==> RemovalReads(m, k, names, r)
  {
    var t := TrieOf(m);
    forall j ensures Stores(t, j) <==> j in m { assert Lookup(t, j) == ValueAt(m, j); }
    forall p ensures Lonely(t, k, p) <==> p in m && p < k && NothingElseExtends(m, p, k) {
      assert Stores(t, p) <==> p in m;
    }
    forall p | p in m ensures Lookup(t, p) == m[p] { assert Lookup(t, p) == ValueAt(m, p); }
    assert Stores(t, k) <==> k in m;
  }

  lemma PartsIsKeysPart(m: Store, k: Key)
    requires NonEmptyValues(m)
    ensures Parts(TrieOf(m), k) <==> exists a, b :: KeysPart(m, k, a, b)
  {
    var t := TrieOf(m);
    forall j ensures Stores(t, j) <==> j in m { assert Lookup(t, j) == ValueAt(m, j); }
    forall a, b ensures PartsAfter(t, k, a, b) <==> KeysPart(m, k, a, b) {
      assert Stores(t, k) <==> k in m;
    }
  }

  /** No key is a proper prefix of another, as among keys of one length. */
  ghost predicate PrefixFree(keys: set<Key>) {
    forall a, b | a in keys && b in keys :: !(a < b)
  }

  /** With keys of which none is a proper prefix of another no removal fails or strays. */
  lemma PrefixFreeNeverFails(m: Store, k: Key, names: Names)
    requires PrefixFree(m.Keys + {k})
    ensures !RemovalFails(m, k, names) && !RemovalStrays(m, k, names)
  {
    assert k in m.Keys + {k};
    forall j | j in m ensures !(j < k) && !(k < j) { assert j in m.Keys + {k}; }
  }

  lemma OneLengthIsPrefixFree(keys: set<Key>, n: nat)
    requires forall k | k in keys :: |k| == n
    ensures PrefixFree(keys)
  {
  }

  /** Removing from the trie of a map gives the trie of the map without the key. */
  lemma DeleteFromTrieOf(m: Store, k: Key, names: Names)
    requires NonEmptyValues(m)
    ensures Stores(TrieOf(m), k) <==> k in m
    ensures Delete(TrieOf(m), k, names).Fault? <==> RemovalFails(m, k, names)
    ensures Delete(TrieOf(m), k, names).Stray? <==> RemovalStrays(m, k, names)
    ensures Delete(TrieOf(m), k, names).NotFound? ==> k !in m
    ensures Delete(TrieOf(m), k, names).Removed? ==>
      k in m && NonEmptyValues(m - {k}) && Delete(TrieOf(m), k, names).t == TrieOf(m - {k})
  {
    var t := TrieOf(m);
    DeleteFaults(t, k, names);
    ReadsAreMisreads(m, k, names, Fault);
    ReadsAreMisreads(m, k, names, Stray);
    PartsIsKeysPart(m, k);
    DeleteIsMapDeletion(t, k, k, names);
    assert Lookup(t, k) == ValueAt(m, k);
    if Delete(t, k, names).Removed? {
      var u := Delete(t, k, names).t;
      forall j ensures Lookup(u, j) == ValueAt(m - {k}, j) {
        DeleteIsMapDeletion(t, k, j, names);
        assert Lookup(t, j) == ValueAt(m, j);
      }
      TrieOfIsUnique(u, m - {k});
    }
  }

  // ---------------------------------------------------------------- removals that go wrong

  /** At the empty key there is no value, and its first nibble is read all the same. */
  lemma PartingKeysExample(v: Bytes, names: Names)
    ensures RemovalFails(map[[1, 1] := v, [2, 2] := v], [], names)
  {
    var m: Store := map[[1, 1] := v, [2, 2] := v];
    assert KeysPart(m, [], [1, 1], [2, 2]);
  }

  /** Below the only key there is nothing to remove, and looking for it fails. */
  lemma StopsShortExample(v: Bytes, k: Key, names: Names)
    requires k != [] && v != [] && (|v| <= HashSize ==> names.named(Padded(v)) !in names.seen)
    ensures RemovalFails(map[[] := v], k, names)
  {
    var m: Store := map[[] := v];
    var p: Key := [];
    assert k[|p|..] == k;
    assert p in m && p < k && NothingElseExtends(m, p, k) && ReadAs(m[p], k[|p|..], k in m, names) == Fault;
  }

  /** Removing the one key that extends another fails when that one's value is longer than a hash. */
  lemma LongValueExample(v: Bytes, w: Bytes, names: Names)
    requires |v| > HashSize
    ensures RemovalFails(map[[1, 1] := v, [1, 1, 2, 2] := w], [1, 1, 2, 2], names)
  {
    var m: Store := map[[1, 1] := v, [1, 1, 2, 2] := w];
    var p, k: Key := [1, 1], [1, 1, 2, 2];
    assert p in m && k in m && p < k && NothingElseExtends(m, p, k) && ReadAs(m[p], k[|p|..], k in m, names) == Fault;
  }
}
