/**
  GenericTrieDB of libdevcore/TrieDB.h: a trie kept as counted nodes in a MemoryDb. Each method
  works on stored items, as the program does; the ghost parameter `t` names the trie an item
  stands for, and every contract says which trie the result stands for and how the reference
  counts moved.
 */
module TrieDb {
  import opened Astray
  import opened Bytes
  import opened Items
  import opened Trie
  import opened TrieFacts
  import opened TrieRemoval
  import opened Nodes
  import opened MemoryDb
  import opened Ledger
  import HexPrefix

  /**
    What a removal step did: threw, went astray into a node named by a value, found nothing (the
    empty bytes), or rewrote the node.
   */
  datatype Outcome = Threw | Strayed | Unchanged | Rewritten(node: Item)

  /** What a removal did as a whole. */
  datatype Verdict = Done | Failed | Astray

  // ---------------------------------------------------------------- items of edited nodes

  lemma SlotItem(t: Trie, n: nat, c: Trie)
    requires Shaped(t) && t.Branch? && n < 16 && Shaped(c)
    ensures Shaped(Branch(t.slots[n := c], t.value))
    ensures NodeItem(Branch(t.slots[n := c], t.value)) == List(NodeItem(t).items[n := Ref(c)])
  {
  }

  lemma ValueItem(t: Trie, v: Bytes)
    requires Shaped(t) && t.Branch?
    ensures Shaped(Branch(t.slots, v))
    ensures NodeItem(Branch(t.slots, v)) == List(NodeItem(t).items[..16] + [Data(v)])
  {
  }

  lemma ForkItem(t: Trie)
    requires Shaped(t) && (t.Leaf? || t.Ext?) && t.key != []
    ensures Shaped(ForkedPart(t)) && Shaped(Fork(t))
    ensures NodeItem(Fork(t)) == List(seq(16, _ => Null)[t.key[0] := Ref(ForkedPart(t))] + [Null])
  {
    ForkedPartIsShaped(t);
    assert NodeItem(Fork(t)).items == seq(16, _ => Null)[t.key[0] := Ref(ForkedPart(t))] + [Null];
  }

  lemma ForkOfEmptyKeyItem(t: Trie)
    requires t.Leaf? && t.key == []
    ensures Shaped(Fork(t))
    ensures NodeItem(Fork(t)) == List(seq(16, _ => Null) + [Data(t.value)])
  {
    assert NodeItem(Fork(t)).items == seq(16, _ => Null) + [Data(t.value)];
  }

  /** A trie whose next insertion step may be taken: canonical, or fresh from a split or a fork. */
  ghost predicate Ready(t: Trie, k: Key) {
    CanonicalBelow(t) && (Canonical(t) || Follows(t, k) || (t.Branch? && Lone'(t)))
  }

  ghost predicate Lone'(t: Trie)
    requires CanonicalBelow(t)
  {
    CanonicalIsShaped(t);
    Lone(NodeItem(t))
  }

  /** A pair split where it leaves the sought key is followed by that key. */
  lemma CleveIsReady(t: Trie, k: Key)
    requires Canonical(t) && Shaped(t)
    requires (t.Leaf? && t.key != k) || (t.Ext? && !(t.key <= k))
    requires Shared(k, t.key) > 0
    ensures t.Ext? ==> Shared(k, t.key) < |t.key|
    ensures Follows(Cleve(t, Shared(k, t.key)), k) && CanonicalBelow(Cleve(t, Shared(k, t.key)))
  {
    var s := Shared(k, t.key);
    assert t.key[..s] == k[..s];
    assert s == |t.key| ==> t.key == t.key[..s];
  }

  /** A forked pair is a branch with canonical entries, one of them occupied. */
  lemma ForkIsReady(t: Trie, k: Key)
    requires Canonical(t) && Shaped(t) && (t.Leaf? || t.Ext?)
    ensures Shaped(Fork(t)) && CanonicalBelow(Fork(t)) && Lone(NodeItem(Fork(t)))
  {
    var here := if t.key == [] then 16 else t.key[0];
    assert Canonical(Empty);
    forall j | 0 <= j < 17 && j != here ensures IsEmpty(NodeItem(Fork(t)).items[j]) {
      BranchItems(Fork(t), j);
    }
    assert OthersEmpty(NodeItem(Fork(t)).items, here);
  }

  lemma NoSoleEntry(t: Trie, except: int, a: int, b: int)
    requires Shaped(t) && t.Branch? && a != b && a != except && b != except
    requires InUse(t.slots, t.value, a) && InUse(t.slots, t.value, b)
    ensures UniqueInUse(t.slots, t.value, except) == 255
  {
  }

  /** A branch with one occupied slot holds what the pair for that slot holds. */
  lemma SoleDelta(m: Table, t: Trie, used: Nibble)
    requires Shaped(t) && t.Branch?
    requires forall i | 0 <= i < 16 && i != used :: t.slots[i] == Empty
    ensures Shaped(Ext([used], t.slots[used])) && Delta(m, m, t, false, Ext([used], t.slots[used]), false)
  {
    forall h ensures Below(t, h) == Own(t.slots[used], h) {
      SumOfOne(t.slots[used := Empty], used, t.slots[used], h);
      assert t.slots[used := Empty][used := t.slots[used]] == t.slots;
    }
  }

  /** When one entry of a branch is the only occupied one, every slot but that is empty. */
  lemma OtherSlotsEmpty(t: Trie, except: int, used: int)
    requires Shaped(t) && t.Branch? && except >= 16 && SoleEntry(t.slots, t.value, except, used)
    ensures 0 <= used <= 16 && (used < 16 ==> t.slots[used] != Empty)
    ensures forall i | 0 <= i < 16 && i != used :: t.slots[i] == Empty
  {
    forall i | 0 <= i < 16 && i != used ensures t.slots[i] == Empty {
      assert !InUse(t.slots, t.value, i);
    }
  }

  /** Rewriting what is below a node leaves its own reference in place. */
  lemma StillCounted(m0: Table, m1: Table, t: Trie, t': Trie)
    requires Shaped(t) && Shaped(t') && !Inlined(NodeItem(t))
    requires Covers(m0, t, true) && Delta(m0, m1, t, false, t', false)
    ensures Refs(m1, Sha3(NodeItem(t))) >= 1
  {
    var h := Sha3(NodeItem(t));
    assert Refs(m0, h) >= Charge(t, true, h) == 1 + Below(t, h);
    assert Refs(m1, h) + Charge(t, false, h) == Refs(m0, h) + Charge(t', false, h);
  }

  /** `s` is `t` or occurs in it. */
  ghost predicate Part(s: Trie, t: Trie) {
    s == t ||
    match t
    case Empty | Leaf(_, _) => false
    case Ext(_, child) => Part(s, child)
    case Branch(slots, _) => exists i | 0 <= i < |slots| :: Part(s, slots[i])
  }

  /** The references for `s` and what is below it have been given up, and nothing else has changed. */
  ghost predicate GaveUp(m0: Table, m1: Table, s: Trie)
    requires Shaped(s)
  {
    forall h :: Refs(m1, h) + Own(s, h) == Refs(m0, h)
  }

  /** A branch of the trie has been given up; `long` if its value is too long for a hash. */
  ghost predicate Short(m0: Table, m1: Table, t: Trie, long: bool) {
    exists s :: Part(s, t) && s.Branch? && Shaped(s) && (long ==> |s.value| > HashSize) && GaveUp(m0, m1, s)
  }

  lemma ShortInChild(m0: Table, m1: Table, t: Trie, long: bool)
    requires t.Ext? && Short(m0, m1, t.child, long)
    ensures Short(m0, m1, t, long)
  {
    var s :| Part(s, t.child) && s.Branch? && Shaped(s) && (long ==> |s.value| > HashSize) && GaveUp(m0, m1, s);
    assert Part(s, t);
  }

  lemma ShortInSlot(m0: Table, m1: Table, t: Trie, i: nat, long: bool)
    requires t.Branch? && i < |t.slots| && Short(m0, m1, t.slots[i], long)
    ensures Short(m0, m1, t, long)
  {
    var s :| Part(s, t.slots[i]) && s.Branch? && Shaped(s) && (long ==> |s.value| > HashSize) && GaveUp(m0, m1, s);
    assert Part(s, t);
  }

  /** A branch whose slots have all been emptied holds nothing any more. */
  lemma ShortAtBranch(m0: Table, m1: Table, t: Trie, t': Trie, long: bool)
    requires Shaped(t) && t.Branch? && (long ==> |t.value| > HashSize)
    requires t'.Branch? && Shaped(t') && forall i | 0 <= i < 16 :: t'.slots[i] == Empty
    requires Delta(m0, m1, t, true, t', false)
    ensures Short(m0, m1, t, long)
  {
    forall h ensures Refs(m1, h) + Own(t, h) == Refs(m0, h) {
      assert Refs(m1, h) + Charge(t, true, h) == Refs(m0, h) + Charge(t', false, h);
      SumOfEmpty(t'.slots, h);
    }
    assert Part(t, t) && GaveUp(m0, m1, t);
  }

  lemma {:induction false} SizeCovers(items: seq<Item>, i: nat)
    requires i < |items|
    ensures ItemSize(items[i]) <= SizeAll(items)
  {
    if i > 0 { SizeCovers(items[1..], i - 1); }
  }

  /** What has been given up under the root is missing there. */
  lemma ShortIsNotHeld(base: Table, m0: Table, m1: Table, t: Trie)
    requires Shaped(t) && RootHeld(base, m0, t) && Short(m0, m1, t, true)
    ensures !RootHeld(base, m1, t)
  {
    var s :| Part(s, t) && s.Branch? && Shaped(s) && |s.value| > HashSize && GaveUp(m0, m1, s);
    BranchItems(s, 16);
    SizeCovers(NodeItem(s).items, 16);
    var h := Sha3(NodeItem(s));
    assert Own(s, h) >= 1;
    assert Refs(m1, h) < Refs(m0, h) == Refs(base, h) + Below(t, h) + if h == Sha3(NodeItem(t)) then 1 else 0;
  }

  /** A removal step from `m0` to `m1` did what is specified; `stored` says how its result is held. */
  ghost predicate Did(m0: Table, m1: Table, names: Names, t: Trie, k: Key, stored: bool, o: Outcome)
    requires Shaped(t)
  {
    var r := Delete(t, k, names);
    && (o.Threw? <==> r.Fault?) && (o.Strayed? <==> r.Stray?)
    && (o.Threw? || o.Strayed? ==> if Stores(t, k) then Short(m0, m1, t, o.Threw?) else m1 == m0)
    && (o.Unchanged? ==> r.NotFound? && m1 == m0)
    && (o.Rewritten? ==>
          && r.Removed? && Shaped(r.t) && o.node == (if stored then Ref(r.t) else NodeItem(r.t))
          && Sound(m1) && Delta(m0, m1, t, true, r.t, stored)
          && (r.t == Empty ==> m1.Keys == m0.Keys))
  }

  lemma StoredBelowExt(t: Trie, k: Key)
    requires Shaped(t) && t.Ext? && t.key <= k
    ensures Stores(t, k) <==> Stores(t.child, k[|t.key|..])
  {
  }

  /** What is removed without a trace is a leaf with that key, of which no value is read. */
  lemma EmptyIndifferent(t: Trie, k: Key, names: Names, names': Names)
    requires Canonical(t) && Shaped(t) && Delete(t, k, names) == Removed(Empty)
    ensures Delete(t, k, names') == Removed(Empty)
  {
    DeleteIsMapDeletion(t, k, k, names);
  }

  lemma KillAfterDelta(m0: Table, m1: Table, m2: Table, t: Trie, t': Trie)
    requires Shaped(t) && Shaped(t') && !Inlined(NodeItem(t)) && Sound(m1)
    requires Delta(m0, m1, t, false, t', false)
    requires var h := Sha3(NodeItem(t));
      h in m1 && m1[h].refs > 0 && m2 == m1[h := Entry(m1[h].value, m1[h].refs - 1)]
    ensures Sound(m2) && Delta(m0, m2, t, true, t', false)
  {
    var h := Sha3(NodeItem(t));
    forall g ensures Refs(m2, g) + Charge(t, true, g) == Refs(m0, g) + Charge(t', false, g) {
      assert Refs(m1, g) + Charge(t, false, g) == Refs(m0, g) + Charge(t', false, g);
      if g == h { assert Refs(m2, h) == Refs(m1, h) - 1; } else { assert Refs(m2, g) == Refs(m1, g); }
    }
    forall g | Refs(m2, g) > 0 ensures !Lone(g.of) {
      assert Refs(m1, g) > 0;
    }
  }

  /**
    The counts of a whole trie, every node below the root and the root itself once, on top of the
    references that `base` counts for others.
   */
  ghost predicate RootHeld(base: Table, m: Table, t: Trie)
    requires Shaped(t)
  {
    forall h :: Refs(m, h) == Refs(base, h) + Below(t, h) + if h == Sha3(NodeItem(t)) then 1 else 0
  }

  lemma EmptyTrie()
    ensures TrieOf(map[]) == Empty && NodeItem(Empty) == Null
  {
    TrieOfIsUnique(Empty, map[]);
  }

  lemma EmptyTrieStoresNothing(m: Store)
    requires NonEmptyValues(m) && NodeItem(TrieOf(m)) == Null
    ensures m == map[]
  {
    assert TrieOf(m) == Empty;
    forall k ensures k !in m { assert Lookup(TrieOf(m), k) == ValueAt(m, k); }
  }

  lemma RootIsPresent(base: Table, m: Table, t: Trie)
    requires Shaped(t) && Coherent(m) && RootHeld(base, m, t)
    ensures var h := Sha3(NodeItem(t)); h in m && m[h].refs > 0 && m[h].value == NodeItem(t)
  {
    assert Refs(m, Sha3(NodeItem(t))) >= 1;
  }

  lemma RootCovers(base: Table, m: Table, t: Trie)
    requires Shaped(t) && RootHeld(base, m, t)
    ensures Covers(m, t, true)
  {
    forall h ensures Refs(m, h) >= Charge(t, true, h) {
      assert Refs(m, h) == Refs(base, h) + Below(t, h) + if h == Sha3(NodeItem(t)) then 1 else 0;
    }
  }

  lemma RootStillCounted(base: Table, m0: Table, m1: Table, t: Trie, t': Trie)
    requires Shaped(t) && Shaped(t') && Inlined(NodeItem(t))
    requires RootHeld(base, m0, t) && Delta(m0, m1, t, true, t', false)
    ensures Refs(m1, Sha3(NodeItem(t))) >= 1
  {
    var h := Sha3(NodeItem(t));
    assert Refs(m0, h) == Refs(base, h) + Below(t, h) + 1;
    assert Refs(m1, h) + Charge(t, true, h) == Refs(m0, h) + Charge(t', false, h);
  }

  /** Once the old root is gone too, exactly what lies below the new root is counted. */
  lemma OnlyBelow(base: Table, m0: Table, m1: Table, m2: Table, t: Trie, t': Trie)
    requires Shaped(t) && Shaped(t') && Sound(m1)
    requires RootHeld(base, m0, t) && Delta(m0, m1, t, true, t', false)
    requires var h := Sha3(NodeItem(t));
      if Inlined(NodeItem(t)) then h in m1 && m1[h].refs > 0 && m2 == m1[h := Entry(m1[h].value, m1[h].refs - 1)] else m2 == m1
    ensures Sound(m2) && forall h :: Refs(m2, h) == Refs(base, h) + Below(t', h)
  {
    var r := Sha3(NodeItem(t));
    forall h ensures Refs(m2, h) == Refs(base, h) + Below(t', h) && (Refs(m2, h) > 0 ==> !Lone(h.of)) {
      assert Refs(m0, h) == Refs(base, h) + Below(t, h) + if h == r then 1 else 0;
      assert Refs(m1, h) + Charge(t, true, h) == Refs(m0, h) + Charge(t', false, h);
      if Refs(m2, h) > 0 { assert Refs(m1, h) > 0; }
    }
  }

  lemma RootStored(base: Table, m2: Table, m3: Table, t: Trie)
    requires Shaped(t) && Sound(m2) && !Lone(NodeItem(t))
    requires forall h :: Refs(m2, h) == Refs(base, h) + Below(t, h)
    requires var h := Sha3(NodeItem(t)); m3 == m2[h := Entry(NodeItem(t), Refs(m2, h) + 1)]
    ensures Sound(m3) && RootHeld(base, m3, t)
  {
    forall h ensures Refs(m3, h) == Refs(base, h) + Below(t, h) + (if h == Sha3(NodeItem(t)) then 1 else 0) {
      assert Refs(m2, h) == Refs(base, h) + Below(t, h);
    }
    forall h | Refs(m3, h) > 0 ensures !Lone(h.of) {
      if h != Sha3(NodeItem(t)) { assert Refs(m2, h) > 0; }
    }
  }

  lemma {:induction false} SumExtend(slots: seq<Trie>, i: nat, h: Hash)
    requires i < |slots| && forall j | 0 <= j < |slots| :: Shaped(slots[j])
    ensures Sum(slots[..i + 1], h) == Sum(slots[..i], h) + Own(slots[i], h)
  {
    if i == 0 {
      assert slots[..1][1..] == [];
    } else {
      assert slots[..i + 1][1..] == slots[1..][..i] && slots[..i][1..] == slots[1..][..i - 1];
      SumExtend(slots[1..], i - 1, h);
    }
  }

  lemma NothingOwned()
    ensures forall h :: Own(Empty, h) == 0
  {
  }

  class TrieDb {
    const db: MemoryDb
    /** The hash that 32 bytes stand for, which matters only where a value is taken for one. */
    const named: Bytes -> Hash
    var root: Hash
    ghost var contents: Store
    /** What the store counted before this trie came to it. */
    ghost var others: Table

    /** open: a view of a store, with no root yet. */
    constructor (store: MemoryDb, named: Bytes -> Hash)
      ensures db == store && this.named == named
    {
      db, this.named := store, named;
      root := Sha3(Null);
      contents, others := map[], map[];
    }

    // -------------------------------------------------------------- nodes in and out of the store

    /**
      killNode: gives up the reference to a node unless it is written out in its parent. A branch
      that was never stored is tried too, but with fewer than two entries it is counted nowhere.
     */
    method KillNode(x: Item, ghost t: Trie, ghost stored: bool)
      requires Shaped(t) && x == NodeItem(t) && Sound(db.main)
      requires if stored then Covers(db.main, t, true) else Inlined(x) || Lone(x)
      modifies db`main
      ensures Sound(db.main) && Delta(old(db.main), db.main, t, stored, t, false)
      ensures db.main.Keys == old(db.main).Keys
    {
      if ItemSize(x) >= HashSize {
        if stored { StoredIsPresent(db.main, t); }
        ghost var was := db.main;
        var killed := db.Kill(Sha3(x));
        if stored {
          KillDelta(was, db.main, t);
        } else {
          Same(db.main, t, false, t, false);
        }
      } else {
        InlinedIsFree(t);
        Same(db.main, t, stored, t, false);
      }
    }

    /** streamNode: a small node as it is, a large one stored and replaced by its hash. */
    method StreamNode(x: Item, ghost t: Trie) returns (r: Item)
      requires Shaped(t) && x == NodeItem(t) && Sound(db.main) && !Lone(x)
      modifies db`main
      ensures r == Ref(t) && Sound(db.main) && Delta(old(db.main), db.main, t, false, t, true)
      ensures Inlined(x) ==> db.main == old(db.main)
    {
      if ItemSize(x) < HashSize {
        r := x;
        InlinedIsFree(t);
        Same(db.main, t, false, t, true);
      } else {
        ghost var was := db.main;
        db.Insert(Sha3(x), x);
        InsertDelta(was, db.main, t);
        r := Digest(x);
      }
    }

    /** deref: the node a child entry stands for. */
    method Deref(x: Item, ghost t: Trie) returns (n: Item)
      requires Shaped(t) && x == Ref(t) && Coherent(db.main) && Covers(db.main, t, true)
      ensures n == NodeItem(t)
    {
      if x.Digest? {
        StoredIsPresent(db.main, t);
        var found := db.Lookup(Sha3(x.of));
        n := found.value;
      } else {
        n := x;
      }
    }

    // -------------------------------------------------------------- insertion

    /** place: puts the value into an empty entry, a leaf with this key, or a branch. */
    method Place(x: Item, k: Key, v: Bytes, ghost t: Trie, ghost stored: bool) returns (b: Item)
      requires Shaped(t) && x == NodeItem(t) && Sound(db.main)
      requires t == Empty || (t.Leaf? && t.key == k) || (t.Branch? && k == [])
      requires if stored then Covers(db.main, t, true) else Inlined(x) || Lone(x)
      modifies db`main
      ensures b == NodeItem(Merge(t, k, v)) && Shaped(Merge(t, k, v))
      ensures Sound(db.main) && Delta(old(db.main), db.main, t, stored, Merge(t, k, v), false)
    {
      ghost var was := db.main;
      ghost var t' := Merge(t, k, v);
      MergeShaped(t, k, v);
      KillNode(x, t, stored);
      assert Delta(was, db.main, t, stored, t', false);
      if IsEmpty(x) { return List([Data(HexPrefix.Encode(k, true)), Data(v)]); }
      if |x.items| == 2 {
        PairItem(t);
        return List([x.items[0], Data(v)]);
      }
      b := List(x.items[..16] + [Data(v)]);
      ValueItem(t, v);
    }

    /** cleve: splits a pair, storing the lower part if it is large. */
    method CleveNode(x: Item, s: nat, ghost t: Trie) returns (top: Item)
      requires Shaped(t) && x == NodeItem(t) && Sound(db.main) && Covers(db.main, t, true)
      requires (t.Leaf? && 0 < s <= |t.key|) || (t.Ext? && 0 < s < |t.key|)
      modifies db`main
      ensures Shaped(Cleve(t, s)) && top == NodeItem(Cleve(t, s))
      ensures Sound(db.main) && Delta(old(db.main), db.main, t, true, Cleve(t, s), false)
    {
      ghost var m0 := db.main;
      PairItem(t);
      CleveDelta(m0, t, s);
      ghost var lower := Cleve(t, s).child;
      KillNode(x, t, true);
      ghost var m1 := db.main;
      CleveDelta(m1, t, s);
      Compose(m0, m1, m1, t, true, t, false, lower, false);
      var k := KeyOf(x);
      var bottom := List([Data(HexPrefix.Encode(k[s..], IsLeaf(x))), x.items[1]]);
      var r := StreamNode(bottom, lower);
      Compose(m0, m1, db.main, t, true, lower, false, lower, true);
      top := List([Data(HexPrefix.Encode(k[..s], false)), r]);
      Same(db.main, lower, true, Cleve(t, s), false);
      Compose(m0, db.main, db.main, t, true, lower, true, Cleve(t, s), false);
    }

    /** The entry a forked pair leaves behind: a shorter pair, or the child itself. */
    method ForkEntry(x: Item, ghost t: Trie) returns (r: Item)
      requires Shaped(t) && (t.Leaf? || t.Ext?) && t.key != [] && x == NodeItem(t) && Sound(db.main)
      modifies db`main
      ensures Shaped(ForkedPart(t)) && r == Ref(ForkedPart(t))
      ensures Sound(db.main) && Delta(old(db.main), db.main, t, false, ForkedPart(t), true)
    {
      ghost var m0 := db.main;
      PairItem(t);
      ForkedPartIsShaped(t);
      ghost var part := ForkedPart(t);
      var k := KeyOf(x);
      if IsLeaf(x) || |k| > 1 {
        Same(m0, t, false, part, false);
        r := StreamNode(List([Data(HexPrefix.Encode(k[1..], IsLeaf(x))), x.items[1]]), part);
        Compose(m0, m0, db.main, t, false, part, false, part, true);
      } else {
        r := x.items[1];
        Same(m0, t, false, part, true);
      }
    }

    /** branch: turns a pair into a branch with one occupied entry. */
    method ForkNode(x: Item, ghost t: Trie) returns (b: Item)
      requires Shaped(t) && (t.Leaf? || t.Ext?) && x == NodeItem(t) && Sound(db.main) && Covers(db.main, t, true)
      modifies db`main
      ensures Shaped(Fork(t)) && b == NodeItem(Fork(t))
      ensures Sound(db.main) && Delta(old(db.main), db.main, t, true, Fork(t), false)
    {
      hide Delta, Covers, Sound, Below, Own;
      ghost var m0 := db.main;
      PairItem(t);
      KillNode(x, t, true);
      ghost var m1 := db.main;
      var k := KeyOf(x);
      if k == [] {
        ForkOfEmptyKeyItem(t);
        b := List(seq(16, _ => Null) + [x.items[1]]);
        ForkOfEmptyKeyDelta(m0, m1, t);
      } else {
        ForkItem(t);
        ghost var part := ForkedPart(t);
        var r: seq<Item> := [];
        var i := 0;
        while i < 16
          invariant 0 <= i <= 16 && Sound(db.main)
          invariant i <= k[0] ==> r == seq(i, _ => Null) && db.main == m1
          invariant i > k[0] ==> r == seq(i, _ => Null)[k[0] := Ref(part)] && Delta(m1, db.main, t, false, part, true)
        {
          if i == k[0] {
            var entry := ForkEntry(x, t);
            r := r + [entry];
          } else {
            r := r + [Null];
          }
          i := i + 1;
        }
        b := List(r + [Null]);
        ForkDelta(m0, m1, db.main, t);
      }
    }

    /** mergeAt: inserts below the node `x`, giving up the reference to it unless it is in hand. */
    method MergeAt(x: Item, k: Key, v: Bytes, inLine: bool, ghost t: Trie) returns (b: Item)
      requires Ready(t, k) && Shaped(t) && x == NodeItem(t) && v != []
      requires Sound(db.main) && Covers(db.main, t, !inLine)
      requires !inLine ==> Canonical(t)
      requires inLine ==> Inlined(x) || Follows(t, k) || (t.Branch? && (k == [] ==> Lone(x)))
      modifies db`main
      ensures Shaped(Merge(t, k, v)) && b == NodeItem(Merge(t, k, v))
      ensures Sound(db.main) && Delta(old(db.main), db.main, t, !inLine, Merge(t, k, v), false)
      decreases |k|, Stage(t, k), 2
    {
      MergeShaped(t, k, v);
      if IsEmpty(x) {
        b := Place(x, k, v, t, !inLine);
      } else if |x.items| == 2 {
        PairItem(t);
        var key := KeyOf(x);
        if key == k && IsLeaf(x) {
          b := Place(x, k, v, t, !inLine);
        } else if key <= k && !IsLeaf(x) {
          b := MergeDown(x, k, v, inLine, t);
        } else {
          b := MergeSplit(x, k, v, inLine, t);
        }
      } else if k == [] {
        b := Place(x, k, v, t, !inLine);
      } else {
        b := MergeIntoSlot(x, k, v, inLine, t);
      }
    }

    /** mergeAtAux: inserts below a child entry and writes the new entry. */
    method MergeAtAux(x: Item, k: Key, v: Bytes, ghost c: Trie) returns (r: Item)
      requires Canonical(c) && Shaped(c) && x == Ref(c) && v != []
      requires Sound(db.main) && Covers(db.main, c, true)
      modifies db`main
      ensures Shaped(Merge(c, k, v)) && r == Ref(Merge(c, k, v))
      ensures Sound(db.main) && Delta(old(db.main), db.main, c, true, Merge(c, k, v), true)
      decreases |k|, 3
    {
      ghost var m0 := db.main;
      var n := x;
      var isRemovable := false;
      if !x.List? && !IsEmpty(x) {
        n := Deref(x, c);
        isRemovable := true;
      } else {
        InlinedIsFree(c);
        StoredCoversBelow(m0, c);
      }
      var b := MergeAt(n, k, v, !isRemovable, c);
      ghost var m1 := db.main;
      if !isRemovable {
        Same(m0, c, true, c, false);
        Compose(m0, m0, m1, c, true, c, false, Merge(c, k, v), false);
      }
      MergeKeepsCanonical(c, k, v);
      CanonicalIsNotLone(Merge(c, k, v));
      r := StreamNode(b, Merge(c, k, v));
      Compose(m0, m1, db.main, c, true, Merge(c, k, v), false, Merge(c, k, v), true);
    }

    /** mergeAt at a pair whose key is followed: the rest of the key goes below. */
    method MergeDown(x: Item, k: Key, v: Bytes, inLine: bool, ghost t: Trie) returns (b: Item)
      requires Follows(t, k) && CanonicalBelow(t) && Shaped(t) && x == NodeItem(t) && v != []
      requires Sound(db.main) && Covers(db.main, t, !inLine)
      modifies db`main
      ensures Shaped(Merge(t, k, v)) && b == NodeItem(Merge(t, k, v))
      ensures Sound(db.main) && Delta(old(db.main), db.main, t, !inLine, Merge(t, k, v), false)
      decreases |k|, Stage(t, k), 1
    {
      ghost var m0 := db.main;
      PairItem(t);
      if !inLine { KillNode(x, t, true); } else { Same(m0, t, false, t, false); }
      ghost var m1 := db.main;
      Carry(m0, m1, t, !inLine, t, false);
      ExtCovers(m1, t);
      var rest := k[|KeyOf(x)|..];
      var r := MergeAtAux(x.items[1], rest, v, t.child);
      b := List([x.items[0], r]);
      ExtDelta(m1, db.main, t.key, t.child, Merge(t.child, rest, v));
      MergeShaped(t, k, v);
      Compose(m0, m1, db.main, t, !inLine, t, false, Merge(t, k, v), false);
    }

    /** mergeAt at a branch: one slot is rewritten, the other entries are copied. */
    method MergeIntoSlot(x: Item, k: Key, v: Bytes, inLine: bool, ghost t: Trie) returns (b: Item)
      requires t.Branch? && k != [] && CanonicalBelow(t) && Shaped(t) && x == NodeItem(t) && v != []
      requires Sound(db.main) && Covers(db.main, t, !inLine)
      modifies db`main
      ensures Shaped(Merge(t, k, v)) && b == NodeItem(Merge(t, k, v))
      ensures Sound(db.main) && Delta(old(db.main), db.main, t, !inLine, Merge(t, k, v), false)
      decreases |k|, Stage(t, k), 1
    {
      hide Delta, Covers, Sound, Canonical;
      ghost var m0 := db.main;
      if !inLine { KillNode(x, t, true); } else { Same(m0, t, false, t, false); }
      ghost var m1 := db.main;
      Carry(m0, m1, t, !inLine, t, false);
      var n := k[0];
      SlotCovers(m1, t, n);
      BranchItems(t, n);
      ghost var c := Merge(t.slots[n], k[1..], v);
      MergeShaped(t.slots[n], k[1..], v);
      var r := MergeEntries(x, k, v, t);
      b := List(r);
      SlotItem(t, n, c);
      SlotDelta(m1, db.main, t.slots, t.value, n, c);
      Compose(m0, m1, db.main, t, !inLine, t, false, Merge(t, k, v), false);
    }

    /** The loop over the entries: one is merged into, the others are copied. */
    method MergeEntries(x: Item, k: Key, v: Bytes, ghost t: Trie) returns (r: seq<Item>)
      requires t.Branch? && k != [] && CanonicalBelow(t) && Shaped(t) && x == NodeItem(t) && v != []
      requires Sound(db.main) && Covers(db.main, t.slots[k[0]], true)
      modifies db`main
      ensures var c := Merge(t.slots[k[0]], k[1..], v);
        && Shaped(c) && r == x.items[k[0] := Ref(c)]
        && Sound(db.main) && Delta(old(db.main), db.main, t.slots[k[0]], true, c, true)
      decreases |k|, Stage(t, k), 0
    {
      hide Delta, Covers, Sound, Canonical, Merge;
      ghost var m1 := db.main;
      var n := k[0];
      BranchItems(t, n);
      MergeShaped(t.slots[n], k[1..], v);
      ghost var c := Merge(t.slots[n], k[1..], v);
      r := [];
      var i := 0;
      while i < 17
        invariant 0 <= i <= 17 && Sound(db.main)
        invariant i <= n ==> r == x.items[..i] && db.main == m1
        invariant i > n ==> r == x.items[n := Ref(c)][..i] && Delta(m1, db.main, t.slots[n], true, c, true)
      {
        if i == n {
          var entry := MergeAtAux(x.items[i], k[1..], v, t.slots[n]);
          r := r + [entry];
        } else {
          r := r + [x.items[i]];
        }
        i := i + 1;
      }
      assert r == x.items[n := Ref(c)];
    }

    /** mergeAt at a pair whose key is not followed: split or fork it first. */
    method MergeSplit(x: Item, k: Key, v: Bytes, inLine: bool, ghost t: Trie) returns (b: Item)
      requires (t.Leaf? && t.key != k) || (t.Ext? && !(t.key <= k))
      requires Canonical(t) && Shaped(t) && x == NodeItem(t) && v != []
      requires Sound(db.main) && Covers(db.main, t, !inLine)
      requires inLine ==> Inlined(x)
      modifies db`main
      ensures Shaped(Merge(t, k, v)) && b == NodeItem(Merge(t, k, v))
      ensures Sound(db.main) && Delta(old(db.main), db.main, t, !inLine, Merge(t, k, v), false)
      decreases |k|, Stage(t, k), 1
    {
      ghost var m0 := db.main;
      PairItem(t);
      if Inlined(x) { InlinedIsFree(t); }
      assert Covers(m0, t, true);
      Same(m0, t, !inLine, t, true);
      var sh := Shared(k, KeyOf(x));
      if sh > 0 {
        CleveIsReady(t, k);
        var cleved := CleveNode(x, sh, t);
        ghost var m1 := db.main;
        Carry(m0, m1, t, true, Cleve(t, sh), false);
        b := MergeAt(cleved, k, v, true, Cleve(t, sh));
        Compose(m0, m1, db.main, t, true, Cleve(t, sh), false, Merge(t, k, v), false);
      } else {
        ForkIsReady(t, k);
        var forked := ForkNode(x, t);
        ghost var m1 := db.main;
        Carry(m0, m1, t, true, Fork(t), false);
        b := MergeAt(forked, k, v, true, Fork(t));
        Compose(m0, m1, db.main, t, true, Fork(t), false, Merge(t, k, v), false);
      }
      Compose(m0, m0, db.main, t, !inLine, t, true, Merge(t, k, v), false);
    }

    // -------------------------------------------------------------- removal

    /**
      isTwoItemNode. A string is looked up as the hash it makes, whether it is a hash or a value; a
      value of more than 32 bytes makes none, and that throws.
     */
    method IsTwoItemNode(x: Item, ghost c: Trie) returns (threw: bool, r: bool)
      requires x.Data? || (Shaped(c) && x == Ref(c) && c != Empty)
      requires Coherent(db.main) && (x.Data? || Covers(db.main, c, true))
      ensures x.Data? ==> var reading := ReadAsPair(x.bytes, NamesSeen(db.main, db.enforceRefs, named));
        (threw <==> reading.Fault?) && (!threw ==> (r <==> reading.Stray?))
      ensures !x.Data? ==> !threw && (r <==> c.Leaf? || c.Ext?)
    {
      if x.Data? {
        if |x.bytes| > HashSize { return true, false; }
        var n := db.Lookup(named(Padded(x.bytes)));
        return false, n.Some? && IsPair(n.value);
      }
      var n := Deref(x, c);
      return false, IsPair(n);
    }

    /** graft: fuses a pair with the pair below it, taking that one out of the store. */
    method GraftNode(x: Item, ghost t: Trie) returns (b: Item)
      requires t.Ext? && (t.child.Leaf? || t.child.Ext?) && Shaped(t) && x == NodeItem(t)
      requires Sound(db.main) && Covers(db.main, t, false)
      modifies db`main
      ensures Shaped(Attach(t.key, t.child)) && b == NodeItem(Attach(t.key, t.child))
      ensures Sound(db.main) && Delta(old(db.main), db.main, t, false, Attach(t.key, t.child), false)
    {
      ghost var m0 := db.main;
      PairItem(t);
      PairItem(t.child);
      ExtCovers(m0, t);
      AttachLookup(t.key, t.child, []);
      ghost var fused := Attach(t.key, t.child);
      var n := Deref(x.items[1], t.child);
      KillNode(n, t.child, true);
      b := List([Data(HexPrefix.Encode(KeyOf(x) + KeyOf(n), IsLeaf(n))), n.items[1]]);
      Same(m0, t, false, t.child, true);
      Compose(m0, m0, db.main, t, false, t.child, true, t.child, false);
      Same(db.main, t.child, false, fused, false);
      Compose(m0, db.main, db.main, t, false, t.child, false, fused, false);
    }

    /** A pair whose child has just been rewritten: fused with it when the child is a pair too. */
    method SettlePair(x: Item, ghost t: Trie) returns (b: Item)
      requires t.Ext? && t.child != Empty && Shaped(t) && x == NodeItem(t)
      requires Sound(db.main) && Covers(db.main, t, false)
      modifies db`main
      ensures Shaped(Attach(t.key, t.child)) && b == NodeItem(Attach(t.key, t.child))
      ensures Sound(db.main) && Delta(old(db.main), db.main, t, false, Attach(t.key, t.child), false)
    {
      PairItem(t);
      ExtCovers(db.main, t);
      var threw, two := IsTwoItemNode(x.items[1], t.child);
      if two {
        b := GraftNode(x, t);
      } else {
        Same(db.main, t, false, t, false);
        b := x;
      }
    }

    /** uniqueInUse: the only occupied entry, 255 when there is none or a second one. */
    method FindUnique(x: Item, except: nat, ghost t: Trie) returns (used: nat)
      requires Shaped(t) && t.Branch? && x == NodeItem(t)
      ensures used == UniqueInUse(t.slots, t.value, except)
    {
      used := 255;
      var i := 0;
      while i < 17
        invariant 0 <= i <= 17
        invariant used == 255 ==> forall j | 0 <= j < i && j != except :: !InUse(t.slots, t.value, j)
        invariant used != 255 ==> used < i && used != except && InUse(t.slots, t.value, used)
        invariant used != 255 ==> forall j | 0 <= j < i && j != except && j != used :: !InUse(t.slots, t.value, j)
      {
        BranchItems(t, i);
        if i != except && !IsEmpty(x.items[i]) {
          if used == 255 {
            used := i;
          } else {
            NoSoleEntry(t, except, used, i);
            return 255;
          }
        }
        i := i + 1;
      }
      if used != 255 {
        assert SoleEntry(t.slots, t.value, except, used);
        SoleIsUnique(t.slots, t.value, except, used, UniqueInUse(t.slots, t.value, except));
      }
    }

    /** merge: the one occupied slot of a branch as a pair, fused with what it leads to. */
    method Collapse(x: Item, used: Nibble, ghost t: Trie) returns (b: Item)
      requires Shaped(t) && t.Branch? && x == NodeItem(t) && t.slots[used] != Empty
      requires forall i | 0 <= i < 16 && i != used :: t.slots[i] == Empty
      requires Sound(db.main) && Covers(db.main, t, false)
      modifies db`main
      ensures var u := Attach([used], t.slots[used]);
        && Shaped(u) && b == NodeItem(u)
        && Sound(db.main) && Delta(old(db.main), db.main, t, false, u, false)
    {
      ghost var m0 := db.main;
      ghost var pair := Ext([used], t.slots[used]);
      BranchItems(t, used);
      SoleDelta(m0, t, used);
      Carry(m0, m0, t, false, pair, false);
      b := SettlePair(List([Data(HexPrefix.Encode([used], false)), x.items[used]]), pair);
      Compose(m0, m0, db.main, t, false, pair, false, Attach([used], t.slots[used]), false);
    }

    /** Gives up the reference to a node whose child entries have already been rewritten. */
    method KillAfter(x: Item, ghost m0: Table, ghost t: Trie, ghost t': Trie)
      requires Shaped(t) && Shaped(t') && x == NodeItem(t) && Sound(db.main)
      requires Covers(m0, t, true) && Delta(m0, db.main, t, false, t', false)
      modifies db`main
      ensures Sound(db.main) && Delta(m0, db.main, t, true, t', false) && db.main.Keys == old(db.main).Keys
    {
      ghost var m1 := db.main;
      if ItemSize(x) >= HashSize {
        StillCounted(m0, m1, t, t');
        var killed := db.Kill(Sha3(x));
        KillAfterDelta(m0, m1, db.main, t, t');
      } else {
        InlinedIsFree(t);
        Same(m0, t, true, t, false);
        Compose(m0, m0, m1, t, true, t, false, t', false);
      }
    }

    /** deleteAt: removes below the node `x`. */
    method DeleteAt(x: Item, k: Key, ghost t: Trie) returns (o: Outcome, ghost names: Names)
      requires Canonical(t) && Shaped(t) && x == NodeItem(t)
      requires Sound(db.main) && Covers(db.main, t, true)
      modifies db`main
      ensures Among(old(db.main), db.enforceRefs, named, names)
      ensures Did(old(db.main), db.main, names, t, k, false, o)
      decreases |k|, t, 1
    {
      names := NamesSeen(db.main, db.enforceRefs, named);
      SeenAreNames(db.main, db.main, db.enforceRefs, named);
      if IsEmpty(x) { return Unchanged, names; }
      if |x.items| == 2 {
        PairItem(t);
        var key := KeyOf(x);
        if key == k && IsLeaf(x) {
          KillNode(x, t, true);
          ghost var m1 := db.main;
          Same(m1, t, false, Empty, false);
          Compose(old(db.main), m1, m1, t, true, t, false, Empty, false);
          return Rewritten(Null), names;
        }
        if key <= k {
          o, names := DeleteBelowPair(x, k, t);
          return;
        }
        return Unchanged, names;
      }
      BranchItems(t, 16);
      if k == [] && !IsEmpty(x.items[16]) {
        o := DeleteValue(x, t, names);
      } else {
        o, names := DeleteInSlot(x, k, t);
      }
    }

    /**
      deleteAtAux below a leaf, whose value is taken for the hash of the node below it. The removal
      goes on in the node of that name, and has gone astray if it finds the key there.
     */
    method DeleteBelowLeaf(v: Bytes, rest: Key) returns (o: Outcome)
      requires Coherent(db.main)
      ensures var reading := ReadAsChild(v, rest, NamesSeen(db.main, db.enforceRefs, named));
        && (o.Threw? <==> reading.Fault?) && (o.Strayed? <==> reading.Stray?) && (o.Unchanged? <==> reading.NotFound?)
        && !o.Rewritten?
    {
      var sight := SeekBelow(Data(v), rest, Visible(db.main, db.enforceRefs));
      match sight
      case Missing => return Unchanged;
      case Found => return Strayed;
      case Broken => return Threw;
    }

    /** deleteAt in a node that a value names, until it has found the key. */
    method Seek(x: Item, k: Key, left: set<Hash>) returns (sight: Sight)
      requires Coherent(db.main)
      ensures sight == Sought(x, k, NamesSeen(db.main, db.enforceRefs, named), left)
      decreases |k|, left, x, 0
    {
      if IsEmpty(x) { return Missing; }
      if !x.List? { return Broken; }
      if |x.items| == 2 {
        if !x.items[0].Data? { return Found; }
        var key := KeyOf(x);
        if key == k {
          if x.items[0].bytes == [] { return Broken; }
          if IsLeaf(x) { return Found; }
        }
        if key <= k {
          sight := SeekBelow(x.items[1], k[|key|..], if key == [] then left else Visible(db.main, db.enforceRefs));
          return;
        }
        return Missing;
      }
      if |x.items| != 17 { return Broken; }
      if k == [] { return if IsEmpty(x.items[16]) then Broken else Found; }
      sight := SeekBelow(x.items[k[0]], k[1..], Visible(db.main, db.enforceRefs));
    }

    /** deleteAtAux there. */
    method SeekBelow(y: Item, k: Key, left: set<Hash>) returns (sight: Sight)
      requires Coherent(db.main)
      ensures sight == SoughtBelow(y, k, NamesSeen(db.main, db.enforceRefs, named), left)
      decreases |k|, left, y, 1
    {
      match y
      case List(_) =>
        sight := Seek(y, k, left);
      case Digest(of) =>
        var n := db.Lookup(Sha3(of));
        if n.None? { return Broken; }
        sight := Seek(n.value, k, left);
      case Data(b) =>
        if b == [] { return Missing; }
        if |b| > HashSize { return Broken; }
        var h := named(Padded(b));
        var n := db.Lookup(h);
        if n.None? || h !in left { return Broken; }
        sight := Seek(n.value, k, left - {h});
    }

    /** deleteAtAux: removes below a child entry and writes the new entry. */
    method DeleteAtAux(x: Item, k: Key, ghost c: Trie) returns (o: Outcome, ghost names: Names)
      requires Canonical(c) && Shaped(c) && x == Ref(c)
      requires Sound(db.main) && Covers(db.main, c, true)
      modifies db`main
      ensures Among(old(db.main), db.enforceRefs, named, names)
      ensures Did(old(db.main), db.main, names, c, k, true, o)
      decreases |k|, c, 2
    {
      names := NamesSeen(db.main, db.enforceRefs, named);
      SeenAreNames(db.main, db.main, db.enforceRefs, named);
      if IsEmpty(x) { return Unchanged, names; }
      ghost var m0 := db.main;
      var n := Deref(x, c);
      var b;
      b, names := DeleteAt(n, k, c);
      if !b.Rewritten? { return b, names; }
      ghost var m1 := db.main;
      ghost var c' := Delete(c, k, names).t;
      DeleteIsMapDeletion(c, k, k, names);
      CanonicalIsNotLone(c');
      var entry := StreamNode(b.node, c');
      Compose(m0, m1, db.main, c, true, c', false, c', true);
      return Rewritten(entry), names;
    }

    /** deleteAt at a pair whose key is followed: the leaf flag is not looked at. */
    method DeleteBelowPair(x: Item, k: Key, ghost t: Trie) returns (o: Outcome, ghost names: Names)
      requires (t.Ext? || (t.Leaf? && t.key != k)) && t.key <= k && Canonical(t) && Shaped(t) && x == NodeItem(t)
      requires Sound(db.main) && Covers(db.main, t, true)
      modifies db`main
      ensures Among(old(db.main), db.enforceRefs, named, names)
      ensures Did(old(db.main), db.main, names, t, k, false, o)
      decreases |k|, t, 0
    {
      ghost var m0 := db.main;
      names := NamesSeen(m0, db.enforceRefs, named);
      SeenAreNames(m0, m0, db.enforceRefs, named);
      PairItem(t);
      var rest := k[|KeyOf(x)|..];
      if x.items[1].Data? {
        o := DeleteBelowLeaf(x.items[1].bytes, rest);
        return;
      }
      StoredCoversBelow(m0, t);
      ExtCovers(m0, t);
      o, names := DeleteAtAux(x.items[1], rest, t.child);
      if !o.Rewritten? {
        StoredBelowExt(t, k);
        if Short(m0, db.main, t.child, o.Threw?) { ShortInChild(m0, db.main, t, o.Threw?); }
        return;
      }
      ghost var m1 := db.main;
      ghost var c := Delete(t.child, rest, names).t;
      DeleteIsMapDeletion(t.child, rest, rest, names);
      ghost var t' := Ext(t.key, c);
      ExtDelta(m0, m1, t.key, t.child, c);
      KillAfter(x, m0, t, t');
      ghost var m2 := db.main;
      Carry(m0, m2, t, true, t', false);
      var b := SettlePair(List([x.items[0], o.node]), t');
      Compose(m0, m2, db.main, t, true, t', false, Attach(t.key, c), false);
      return Rewritten(b), names;
    }

    /** deleteAt at the branch that holds the value. */
    method DeleteValue(x: Item, ghost t: Trie, ghost names: Names) returns (o: Outcome)
      requires t.Branch? && t.value != [] && Canonical(t) && Shaped(t) && x == NodeItem(t)
      requires Sound(db.main) && Covers(db.main, t, true)
      modifies db`main
      ensures o.Rewritten? && Did(old(db.main), db.main, names, t, [], false, o)
    {
      ghost var m0 := db.main;
      KillNode(x, t, true);
      ghost var m1 := db.main;
      Carry(m0, m1, t, true, t, false);
      DropValueIsFaithful(t, [], names);
      var used := FindUnique(x, 16, t);
      if used == 255 {
        ValueItem(t, []);
        ValueIsFree(t.slots, t.value, []);
        Same(m1, t, false, Branch(t.slots, []), false);
        Compose(m0, m1, m1, t, true, t, false, Branch(t.slots, []), false);
        return Rewritten(List(x.items[..16] + [Null]));
      }
      OtherSlotsEmpty(t, 16, used);
      var b := Collapse(x, used, t);
      Compose(m0, m1, db.main, t, true, t, false, Attach([used], t.slots[used]), false);
      return Rewritten(b);
    }

    /** deleteAt at a branch that holds no value for the key, be it empty: its first nibble is read. */
    method DeleteInSlot(x: Item, k: Key, ghost t: Trie) returns (o: Outcome, ghost names: Names)
      requires t.Branch? && (k == [] ==> t.value == []) && Canonical(t) && Shaped(t) && x == NodeItem(t)
      requires Sound(db.main) && Covers(db.main, t, true)
      modifies db`main
      ensures Among(old(db.main), db.enforceRefs, named, names)
      ensures Did(old(db.main), db.main, names, t, k, false, o)
      decreases |k|, t, 0
    {
      hide Covers, Delta, Among, NamesSeen, Short;
      ghost var m0 := db.main;
      names := NamesSeen(m0, db.enforceRefs, named);
      SeenAreNames(m0, m0, db.enforceRefs, named);
      if k == [] { return Threw, names; }
      var n := k[0];
      StoredCoversBelow(m0, t);
      SlotCovers(m0, t, n);
      BranchItems(t, n);
      o, names := DeleteAtAux(x.items[n], k[1..], t.slots[n]);
      if o.Rewritten? {
        o, names := RewriteSlot(x, k, o.node, t, m0, names);
      } else if Short(m0, db.main, t.slots[n], o.Threw?) {
        ShortInSlot(m0, db.main, t, n, o.Threw?);
      }
    }

    /** The branch with what is left of the slot, and what becomes of the branch. */
    method RewriteSlot(x: Item, k: Key, entry: Item, ghost t: Trie, ghost m0: Table, ghost seen: Names)
      returns (o: Outcome, ghost names: Names)
      requires t.Branch? && k != [] && Canonical(t) && Shaped(t) && x == NodeItem(t)
      requires Sound(m0) && Covers(m0, t, true) && Among(m0, db.enforceRefs, named, seen)
      requires Did(m0, db.main, seen, t.slots[k[0]], k[1..], true, Rewritten(entry))
      modifies db`main
      ensures Among(m0, db.enforceRefs, named, names) && Did(m0, db.main, names, t, k, false, o)
    {
      hide Covers, Delta, Among, NamesSeen, Short;
      names := seen;
      var n := k[0];
      ghost var m1 := db.main;
      ghost var c := Delete(t.slots[n], k[1..], names).t;
      DeleteIsMapDeletion(t.slots[n], k[1..], [], names);
      ghost var t' := Branch(t.slots[n := c], t.value);
      SlotItem(t, n, c);
      SlotDelta(m0, m1, t.slots, t.value, n, c);
      KillAfter(x, m0, t, t');
      ghost var m2 := db.main;
      Carry(m0, m2, t, true, t', false);
      StrandedAtTop(t, k, names);
      if UniqueInUse(t'.slots, t'.value, 255) == 16 {
        EmptyIndifferent(t.slots[n], k[1..], names, NamesSeen(m2, db.enforceRefs, named));
        names := NamesSeen(m2, db.enforceRefs, named);
        SeenAreNames(m0, m2, db.enforceRefs, named);
      }
      o := SettleBranch(List(x.items[n := entry]), t');
      if o.Rewritten? {
        Compose(m0, m2, db.main, t, true, t', false, Delete(t, k, names).t, false);
      } else {
        OtherSlotsEmpty(t', 255, 16);
        ShortAtBranch(m0, m2, t, t', o.Threw?);
      }
    }

    /** The end of deleteAt: a branch left with one entry becomes a pair. */
    method SettleBranch(x: Item, ghost t: Trie) returns (o: Outcome)
      requires t.Branch? && Shaped(t) && x == NodeItem(t)
      requires Sound(db.main) && Covers(db.main, t, false)
      modifies db`main
      ensures var r := Settle(t.slots, t.value, NamesSeen(old(db.main), db.enforceRefs, named));
        && !o.Unchanged? && (o.Threw? <==> r.Fault?) && (o.Strayed? <==> r.Stray?)
        && (!o.Rewritten? ==> db.main == old(db.main) && SoleEntry(t.slots, t.value, 255, 16))
        && (o.Threw? ==> |t.value| > HashSize)
        && (o.Rewritten? ==>
              && r.Removed? && r.t != Empty && Shaped(r.t) && o.node == NodeItem(r.t)
              && Sound(db.main) && Delta(old(db.main), db.main, t, false, r.t, false))
    {
      ghost var m0 := db.main;
      var used := FindUnique(x, 255, t);
      if used == 255 {
        Same(m0, t, false, t, false);
        return Rewritten(x);
      }
      OtherSlotsEmpty(t, 255, used);
      BranchItems(t, used);
      if used == 16 {
        var threw, two := IsTwoItemNode(x.items[16], Empty);
        if threw { return Threw; }
        if two { return Strayed; }
        ghost var leaf := Leaf([], t.value);
        forall h ensures Below(t, h) == 0 { SumOfEmpty(t.slots, h); }
        Same(m0, t, false, leaf, false);
        return Rewritten(List([Data(HexPrefix.Encode([], true)), x.items[16]]));
      }
      var b := Collapse(x, used, t);
      return Rewritten(b);
    }

    // -------------------------------------------------------------- the trie as a whole

    /**
      The store counts exactly the nodes of the trie of `contents`, and its root once more, besides
      what it counted before; and keys are whole bytes.
     */
    ghost predicate Valid()
      reads this, db
    {
      && NonEmptyValues(contents) && WholeBytes(contents) && Sound(db.main)
      && root == Sha3(NodeItem(TrieOf(contents)))
      && RootHeld(others, db.main, TrieOf(contents))
    }

    /** init: stores the empty node and makes it the root, whatever else the store holds. */
    method Init()
      requires Sound(db.main)
      modifies this, db`main
      ensures Valid() && contents == map[] && others == old(db.main)
    {
      others := db.main;
      db.Insert(Sha3(Null), Null);
      root := Sha3(Null);
      contents := map[];
      EmptyTrie();
    }

    /** The node the root hash stands for. */
    method RootItem() returns (x: Item)
      requires Valid()
      ensures x == NodeItem(TrieOf(contents))
    {
      RootIsPresent(others, db.main, TrieOf(contents));
      var found := db.Lookup(root);
      x := found.value;
    }

    /** A root too small to have been given up as a node is given up here. */
    method KillSmallRoot(x: Item, ghost m0: Table, ghost t: Trie, ghost t': Trie)
      requires Shaped(t) && Shaped(t') && x == NodeItem(t) && root == Sha3(x)
      requires RootHeld(others, m0, t) && Delta(m0, db.main, t, true, t', false) && Sound(db.main)
      modifies db`main
      ensures Sound(db.main) && forall h :: Refs(db.main, h) == Refs(others, h) + Below(t', h)
    {
      ghost var m1 := db.main;
      if ItemSize(x) < HashSize {
        RootStillCounted(others, m0, m1, t, t');
        var killed := db.Kill(root);
      }
      OnlyBelow(others, m0, m1, db.main, t, t');
    }

    /** Stores the new root, whatever its size. */
    method StoreRoot(b: Item, ghost t: Trie)
      requires Canonical(t) && Shaped(t) && b == NodeItem(t)
      requires Sound(db.main) && forall h :: Refs(db.main, h) == Refs(others, h) + Below(t, h)
      modifies this`root, db`main
      ensures root == Sha3(b) && Sound(db.main) && RootHeld(others, db.main, t)
    {
      ghost var m2 := db.main;
      CanonicalIsNotLone(t);
      root := Sha3(b);
      db.Insert(root, b);
      RootStored(others, m2, db.main, t);
    }

    /** insert: the trie of the updated map, with exact counts. */
    method Insert(key: Bytes, value: Bytes)
      requires Valid() && value != []
      modifies this`root, this`contents, db`main
      ensures Valid() && contents == old(contents)[AsNibbles(key) := value]
    {
      hide RootHeld, Merge, Delta, Covers, Sound, WholeBytes, NonEmptyValues;
      StaysWhole(contents, key, value);
      ghost var t := TrieOf(contents);
      ghost var m0 := db.main;
      var k := AsNibbles(key);
      InsertIntoTrieOf(contents, k, value);
      RootCovers(others, m0, t);
      var x := RootItem();
      var b := MergeAt(x, k, value, false, t);
      MergeKeepsCanonical(t, k, value);
      KillSmallRoot(x, m0, t, Merge(t, k, value));
      StoreRoot(b, Merge(t, k, value));
      contents := contents[k := value];
    }

    /**
      remove: the trie of the map without the key, with exact counts, unless the removal throws or
      goes astray. It does either exactly when the map and the names in the store say so. For an
      absent key nothing has changed unless it has gone astray. For a stored one a branch has been
      given up by then while the root still refers to it, which is as it stays if it throws.
     */
    method Remove(key: Bytes) returns (verdict: Verdict, ghost names: Names)
      requires Valid()
      modifies this`root, this`contents, db`main
      ensures Among(old(db.main), db.enforceRefs, named, names)
      ensures verdict.Failed? <==> RemovalFails(old(contents), AsNibbles(key), names)
      ensures verdict.Astray? <==> RemovalStrays(old(contents), AsNibbles(key), names)
      ensures verdict.Done? ==> Valid() && contents == old(contents) - {AsNibbles(key)}
      ensures AsNibbles(key) !in old(contents) && !verdict.Astray? ==>
        Valid() && contents == old(contents) && root == old(root) && db.main == old(db.main)
      ensures AsNibbles(key) in old(contents) && !verdict.Done? ==>
        && contents == old(contents) && root == old(root)
        && Short(old(db.main), db.main, TrieOf(contents), verdict.Failed?) && (verdict.Failed? ==> !Valid())
    {
      hide RootHeld, Delta, Covers, Sound, Canonical, RemovalFails, RemovalStrays, NonEmptyValues, Among, Short;
      ghost var t := TrieOf(contents);
      ghost var m0 := db.main;
      var k := AsNibbles(key);
      RootCovers(others, m0, t);
      var x := RootItem();
      var o;
      o, names := DeleteAt(x, k, t);
      DeleteFromTrieOf(contents, k, names);
      assert Lookup(t, k) == ValueAt(contents, k);
      match o
      case Threw =>
        if Stores(t, k) { ShortIsNotHeld(others, m0, db.main, t); }
        return Failed, names;
      case Strayed => return Astray, names;
      case Unchanged => return Done, names;
      case Rewritten(b) =>
        ghost var u := Delete(t, k, names).t;
        DeleteIsMapDeletion(t, k, k, names);
        KillSmallRoot(x, m0, t, u);
        StoreRoot(b, u);
        contents := contents - {k};
        return Done, names;
    }

    /** at: the stored value, or the empty string. */
    method At(key: Bytes) returns (v: Bytes)
      requires Valid()
      ensures v == if AsNibbles(key) in contents then contents[AsNibbles(key)] else []
    {
      ghost var t := TrieOf(contents);
      RootCovers(others, db.main, t);
      StoredCoversBelow(db.main, t);
      var x := RootItem();
      v := AtAux(x, AsNibbles(key), t);
      assert Lookup(t, AsNibbles(key)) == ValueAt(contents, AsNibbles(key));
    }

    method Contains(key: Bytes) returns (r: bool)
      requires Valid()
      ensures r <==> AsNibbles(key) in contents
    {
      var v := At(key);
      r := v != [];
    }

    method IsEmptyTrie() returns (r: bool)
      requires Valid()
      ensures r <==> contents == map[]
    {
      RootIsPresent(others, db.main, TrieOf(contents));
      var found := db.Lookup(root);
      r := root == Sha3(Null) && found.Some?;
      EmptyTrie();
      if r { EmptyTrieStoresNothing(contents); }
    }

    /** atAux: follows the key down the stored nodes. */
    method AtAux(x: Item, k: Key, ghost t: Trie) returns (v: Bytes)
      requires Shaped(t) && x == NodeItem(t) && Coherent(db.main) && Covers(db.main, t, false)
      ensures v == Lookup(t, k)
      decreases t
    {
      if IsEmpty(x) { return []; }
      if |x.items| == 2 {
        PairItem(t);
        var key := KeyOf(x);
        if k == key && IsLeaf(x) { return x.items[1].bytes; }
        if key <= k && !IsLeaf(x) {
          ExtCovers(db.main, t);
          StoredCoversBelow(db.main, t.child);
          if IsEmpty(x.items[1]) { return []; }
          var n := Deref(x.items[1], t.child);
          v := AtAux(n, k[|key|..], t.child);
          return;
        }
        return [];
      }
      if k == [] {
        BranchItems(t, 16);
        return x.items[16].bytes;
      }
      BranchItems(t, k[0]);
      if IsEmpty(x.items[k[0]]) { return []; }
      SlotCovers(db.main, t, k[0]);
      StoredCoversBelow(db.main, t.slots[k[0]]);
      var n := Deref(x.items[k[0]], t.slots[k[0]]);
      v := AtAux(n, k[1..], t.slots[k[0]]);
    }

    // -------------------------------------------------------------- the consistency check

    /** descendKey: strikes a hash from the mask and goes through the node it stands for. */
    method DescendKey(h: Hash, mask: set<Hash>, wasExt: bool, ghost t: Trie) returns (threw: bool, left: set<Hash>)
      requires Canonical(t) && Shaped(t) && h == Sha3(NodeItem(t)) && (wasExt ==> t.Branch?)
      requires h in db.main && db.main[h].refs > 0 && db.main[h].value == NodeItem(t)
      requires Coherent(db.main) && Covers(db.main, t, false) && (t == Empty ==> h == root)
      ensures !threw && left == set g | g in mask && g != h && Below(t, g) == 0
      decreases t, 2
    {
      var rest := mask - {h};
      if h == root && h == Sha3(Null) {
        return false, rest;
      }
      var found := db.Lookup(h);
      threw, left := DescendList(found.value, rest, wasExt, t);
    }

    /** descendEntry: a child is a hash or a node written out in its parent. */
    method DescendEntry(x: Item, mask: set<Hash>, wasExt: bool, ghost t: Trie) returns (threw: bool, left: set<Hash>)
      requires Canonical(t) && t != Empty && Shaped(t) && x == Ref(t) && (wasExt ==> t.Branch?)
      requires Coherent(db.main) && Covers(db.main, t, true)
      ensures !threw && left == set g | g in mask && Own(t, g) == 0
      decreases t, 3
    {
      StoredCoversBelow(db.main, t);
      if x.Digest? {
        StoredIsPresent(db.main, t);
        threw, left := DescendKey(Sha3(x.of), mask, wasExt, t);
      } else {
        threw, left := DescendList(x, mask, wasExt, t);
      }
    }

    /** descendList: the shapes a node may have; an extension under an extension is refused. */
    method DescendList(x: Item, mask: set<Hash>, wasExt: bool, ghost t: Trie) returns (threw: bool, left: set<Hash>)
      requires Canonical(t) && t != Empty && Shaped(t) && x == NodeItem(t) && (wasExt ==> t.Branch?)
      requires Coherent(db.main) && Covers(db.main, t, false)
      ensures !threw && left == set g | g in mask && Below(t, g) == 0
      decreases t, 1
    {
      if x.List? && |x.items| == 2 && !wasExt {
        PairItem(t);
        if IsLeaf(x) { return false, mask; }
        ExtCovers(db.main, t);
        threw, left := DescendEntry(x.items[1], mask, true, t.child);
      } else if x.List? && |x.items| == 17 {
        threw, left := DescendSlots(x, mask, t);
      } else {
        return true, mask;
      }
    }

    method DescendSlots(x: Item, mask: set<Hash>, ghost t: Trie) returns (threw: bool, left: set<Hash>)
      requires t.Branch? && Canonical(t) && Shaped(t) && x == NodeItem(t)
      requires Coherent(db.main) && Covers(db.main, t, false)
      ensures !threw && left == set g | g in mask && Below(t, g) == 0
      decreases t, 0
    {
      threw, left := false, mask;
      var i := 0;
      while i < 16
        invariant 0 <= i <= 16 && !threw
        invariant left == set g | g in mask && Sum(t.slots[..i], g) == 0
      {
        BranchItems(t, i);
        forall g ensures Sum(t.slots[..i + 1], g) == Sum(t.slots[..i], g) + Own(t.slots[i], g) {
          SumExtend(t.slots, i, g);
        }
        if !IsEmpty(x.items[i]) {
          SlotCovers(db.main, t, i);
          threw, left := DescendEntry(x.items[i], left, false, t.slots[i]);
        } else {
          NothingOwned();
        }
        i := i + 1;
      }
      assert t.slots[..16] == t.slots;
    }

    /**
      check: every node has a legal shape; with no left-overs allowed, every referenced node of the
      store is the root or below it, which holds whenever the store was this trie's alone.
     */
    method Check(requireNoLeftOvers: bool) returns (r: bool)
      requires Valid()
      ensures requireNoLeftOvers ==> (r <==> forall h :: Refs(others, h) > 0 ==> h == root || Below(TrieOf(contents), h) > 0)
      ensures !requireNoLeftOvers ==> r
      ensures others == map[] ==> r
    {
      ghost var t := TrieOf(contents);
      RootIsPresent(others, db.main, t);
      RootCovers(others, db.main, t);
      StoredCoversBelow(db.main, t);
      var keys := db.Keys();
      var threw, left := DescendKey(root, keys, false, t);
      if threw { return false; }
      forall h ensures h in left <==> Refs(others, h) > 0 && h != root && Below(t, h) == 0 {
        assert Refs(db.main, h) == Refs(others, h) + Below(t, h) + if h == root then 1 else 0;
      }
      r := left == {} || !requireNoLeftOvers;
    }

    /** After a purge the store holds the nodes of the trie and what it held before, and nothing else. */
    method Purge()
      requires Valid()
      modifies db`main
      ensures Valid() && contents == old(contents)
      ensures forall h :: h in db.main <==> Refs(others, h) > 0 || h == root || Below(TrieOf(contents), h) > 0
    {
      ghost var m0 := db.main;
      db.Purge();
      forall h ensures Refs(db.main, h) == Refs(m0, h) {}
      forall h ensures h in db.main <==> Refs(others, h) > 0 || h == root || Below(TrieOf(contents), h) > 0 {
        assert Refs(db.main, h) == Refs(others, h) + Below(TrieOf(contents), h) + if h == root then 1 else 0;
      }
    }
  }

  /** Every key is the nibbles of some bytes. */
  ghost predicate WholeBytes(m: Store) {
    forall k | k in m :: |k| % 2 == 0
  }

  lemma StaysWhole(m: Store, key: Bytes, value: Bytes)
    requires WholeBytes(m)
    ensures WholeBytes(m[AsNibbles(key) := value])
  {
  }
}
