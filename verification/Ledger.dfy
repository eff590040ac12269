/**
  Bookkeeping for the editing steps of the stored trie. `Delta` says that a step turned the
  references held for one trie into those held for another; steps compose.
 */
module Ledger {
  import opened Bytes
  import opened Items
  import opened Trie
  import opened TrieFacts
  import opened Nodes
  import opened MemoryDb

  /** References held for `t`: with its own node when it is stored, without when it is in hand. */
  ghost function Charge(t: Trie, stored: bool, h: Hash): nat
    requires Shaped(t)
  {
    if stored then Own(t, h) else Below(t, h)
  }

  /** Entries are right, and no referenced node is a branch with fewer than two entries. */
  ghost predicate Sound(m: Table) {
    Coherent(m) && forall h :: Refs(m, h) > 0 ==> !Lone(h.of)
  }

  /** The table counts at least the references held for `t`. */
  ghost predicate Covers(m: Table, t: Trie, stored: bool)
    requires Shaped(t)
  {
    forall h :: Refs(m, h) >= Charge(t, stored, h)
  }

  /** From `m0` to `m1` the references for `a` have been given up for those for `b`. */
  ghost predicate Delta(m0: Table, m1: Table, a: Trie, aStored: bool, b: Trie, bStored: bool)
    requires Shaped(a) && Shaped(b)
  {
    forall h :: Refs(m1, h) + Charge(a, aStored, h) == Refs(m0, h) + Charge(b, bStored, h)
  }

  lemma Same(m: Table, a: Trie, aStored: bool, b: Trie, bStored: bool)
    requires Shaped(a) && Shaped(b)
    requires forall h :: Charge(a, aStored, h) == Charge(b, bStored, h)
    ensures Delta(m, m, a, aStored, b, bStored)
  {
  }

  lemma Compose(m0: Table, m1: Table, m2: Table, a: Trie, aStored: bool, b: Trie, bStored: bool, c: Trie, cStored: bool)
    requires Shaped(a) && Shaped(b) && Shaped(c)
    requires Delta(m0, m1, a, aStored, b, bStored) && Delta(m1, m2, b, bStored, c, cStored)
    ensures Delta(m0, m2, a, aStored, c, cStored)
  {
    forall h ensures Refs(m2, h) + Charge(a, aStored, h) == Refs(m0, h) + Charge(c, cStored, h) {
      assert Refs(m1, h) + Charge(a, aStored, h) == Refs(m0, h) + Charge(b, bStored, h);
    }
  }

  lemma Carry(m0: Table, m1: Table, a: Trie, aStored: bool, b: Trie, bStored: bool)
    requires Shaped(a) && Shaped(b)
    requires Covers(m0, a, aStored) && Delta(m0, m1, a, aStored, b, bStored)
    ensures Covers(m1, b, bStored)
  {
    forall h ensures Refs(m1, h) >= Charge(b, bStored, h) {
      assert Refs(m0, h) >= Charge(a, aStored, h);
      assert Refs(m1, h) + Charge(a, aStored, h) == Refs(m0, h) + Charge(b, bStored, h);
    }
  }

  /** An inlined node holds no reference of its own. */
  lemma InlinedIsFree(t: Trie)
    requires Shaped(t) && Inlined(NodeItem(t))
    ensures forall h :: Own(t, h) == Below(t, h)
  {
  }

  lemma StoredCoversBelow(m: Table, t: Trie)
    requires Shaped(t) && Covers(m, t, true)
    ensures Covers(m, t, false)
  {
    forall h ensures Refs(m, h) >= Charge(t, false, h) {
      assert Refs(m, h) >= Charge(t, true, h);
    }
  }

  /** A stored node can be looked up. */
  lemma StoredIsPresent(m: Table, t: Trie)
    requires Shaped(t) && Covers(m, t, true) && Coherent(m) && !Inlined(NodeItem(t))
    ensures var h := Sha3(NodeItem(t)); h in m && m[h].refs > 0 && m[h].value == NodeItem(t)
  {
    var h := Sha3(NodeItem(t));
    assert Refs(m, h) >= Charge(t, true, h) >= 1;
  }

  // ---------------------------------------------------------------- from a child to its parent

  lemma ExtCovers(m: Table, t: Trie)
    requires Shaped(t) && t.Ext? && Covers(m, t, false)
    ensures Covers(m, t.child, true)
  {
    forall h ensures Refs(m, h) >= Charge(t.child, true, h) {
      assert Refs(m, h) >= Charge(t, false, h);
    }
  }

  lemma SlotCovers(m: Table, t: Trie, i: nat)
    requires Shaped(t) && t.Branch? && i < 16 && Covers(m, t, false)
    ensures Covers(m, t.slots[i], true)
  {
    forall h ensures Refs(m, h) >= Charge(t.slots[i], true, h) {
      assert Refs(m, h) >= Charge(t, false, h);
      SumCovers(t.slots, i, h);
    }
  }

  lemma ExtDelta(m0: Table, m1: Table, key: Key, a: Trie, b: Trie)
    requires Shaped(a) && Shaped(b) && key != [] && Delta(m0, m1, a, true, b, true)
    ensures Delta(m0, m1, Ext(key, a), false, Ext(key, b), false)
  {
    forall h ensures Refs(m1, h) + Charge(Ext(key, a), false, h) == Refs(m0, h) + Charge(Ext(key, b), false, h) {
      assert Refs(m1, h) + Charge(a, true, h) == Refs(m0, h) + Charge(b, true, h);
    }
  }

  lemma SlotDelta(m0: Table, m1: Table, slots: seq<Trie>, value: Bytes, i: nat, c: Trie)
    requires |slots| == 16 && i < 16 && Shaped(c) && forall j | 0 <= j < 16 :: Shaped(slots[j])
    requires Delta(m0, m1, slots[i], true, c, true)
    ensures Shaped(Branch(slots[i := c], value))
    ensures Delta(m0, m1, Branch(slots, value), false, Branch(slots[i := c], value), false)
  {
    var a, b := Branch(slots, value), Branch(slots[i := c], value);
    forall h ensures Refs(m1, h) + Charge(a, false, h) == Refs(m0, h) + Charge(b, false, h) {
      assert Refs(m1, h) + Charge(slots[i], true, h) == Refs(m0, h) + Charge(c, true, h);
      SumUpdate(slots, i, c, h);
    }
  }

  /** The value of a branch holds no reference. */
  lemma ValueIsFree(slots: seq<Trie>, v: Bytes, w: Bytes)
    requires Shaped(Branch(slots, v))
    ensures Shaped(Branch(slots, w))
    ensures forall h :: Below(Branch(slots, v), h) == Below(Branch(slots, w), h)
  {
  }

  // ---------------------------------------------------------------- the elementary steps

  /** Killing a stored node that is held. */
  lemma KillDelta(m0: Table, m1: Table, t: Trie)
    requires Shaped(t) && Sound(m0) && Covers(m0, t, true) && !Inlined(NodeItem(t))
    requires var h := Sha3(NodeItem(t));
      h in m0 && m0[h].refs > 0 && m1 == m0[h := Entry(m0[h].value, m0[h].refs - 1)]
    ensures Sound(m1) && Delta(m0, m1, t, true, t, false)
  {
    var h := Sha3(NodeItem(t));
    forall g ensures Refs(m1, g) + Charge(t, true, g) == Refs(m0, g) + Charge(t, false, g) {
      if g == h { assert Refs(m1, h) == Refs(m0, h) - 1; } else { assert Refs(m1, g) == Refs(m0, g); }
    }
    forall g | Refs(m1, g) > 0 ensures !Lone(g.of) {
      assert Refs(m0, g) > 0;
    }
  }

  /** Storing a node that is in hand. */
  lemma InsertDelta(m0: Table, m1: Table, t: Trie)
    requires Shaped(t) && Sound(m0) && !Inlined(NodeItem(t)) && !Lone(NodeItem(t))
    requires var h := Sha3(NodeItem(t)); m1 == m0[h := Entry(NodeItem(t), Refs(m0, h) + 1)]
    ensures Sound(m1) && Delta(m0, m1, t, false, t, true)
  {
    var h := Sha3(NodeItem(t));
    forall g ensures Refs(m1, g) + Charge(t, false, g) == Refs(m0, g) + Charge(t, true, g) {
      if g == h { assert Refs(m1, h) == Refs(m0, h) + 1; } else { assert Refs(m1, g) == Refs(m0, g); }
    }
    forall g | Refs(m1, g) > 0 ensures !Lone(g.of) {
      if g != h { assert Refs(m0, g) > 0; }
    }
  }

  // ---------------------------------------------------------------- splits and forks

  lemma CleveDelta(m: Table, t: Trie, s: nat)
    requires Shaped(t) && ((t.Leaf? && 0 < s <= |t.key|) || (t.Ext? && 0 < s < |t.key|))
    ensures Shaped(Cleve(t, s)) && Delta(m, m, t, false, Cleve(t, s).child, false)
  {
    CleveKeepsLookups(t, s, []);
  }

  /** The pair a fork moves into its slot, or the child it takes over. */
  function ForkedPart(t: Trie): Trie
    requires (t.Leaf? || t.Ext?) && t.key != []
  {
    if t.Leaf? then Leaf(t.key[1..], t.value)
    else if |t.key| > 1 then Ext(t.key[1..], t.child) else t.child
  }

  lemma ForkedPartIsShaped(t: Trie)
    requires Shaped(t) && (t.Leaf? || t.Ext?) && t.key != []
    ensures Shaped(ForkedPart(t))
    ensures Fork(t) == Branch(NoSlots()[t.key[0] := ForkedPart(t)], [])
  {
  }

  lemma SumOfOne(slots: seq<Trie>, i: nat, c: Trie, h: Hash)
    requires i < |slots| && Shaped(c) && forall j | 0 <= j < |slots| :: slots[j] == Empty
    ensures Sum(slots[i := c], h) == Own(c, h)
  {
    SumOfEmpty(slots, h);
    SumUpdate(slots, i, c, h);
    assert Own(Empty, h) == 0;
  }

  /** A fork holds what its one occupied entry holds. */
  lemma ForkBelow(t: Trie, h: Hash)
    requires Shaped(t) && (t.Leaf? || t.Ext?) && t.key != []
    ensures Shaped(ForkedPart(t)) && Shaped(Fork(t))
    ensures Below(Fork(t), h) == Own(ForkedPart(t), h)
  {
    ForkedPartIsShaped(t);
    SumOfOne(NoSlots(), t.key[0], ForkedPart(t), h);
  }

  lemma ForkOfEmptyKeyBelow(t: Trie, h: Hash)
    requires t.Leaf? && t.key == []
    ensures Shaped(Fork(t)) && Below(Fork(t), h) == 0
  {
    SumOfEmpty(NoSlots(), h);
  }

  /** Forking a pair exchanges the reference to it for those below the branch. */
  lemma ForkDelta(m0: Table, m1: Table, m2: Table, t: Trie)
    requires Shaped(t) && (t.Leaf? || t.Ext?) && t.key != []
    requires Shaped(ForkedPart(t)) && Shaped(Fork(t))
    requires Delta(m0, m1, t, true, t, false) && Delta(m1, m2, t, false, ForkedPart(t), true)
    ensures Delta(m0, m2, t, true, Fork(t), false)
  {
    hide Delta;
    var part := ForkedPart(t);
    Compose(m0, m1, m2, t, true, t, false, part, true);
    forall h ensures Own(part, h) == Below(Fork(t), h) { ForkBelow(t, h); }
    Same(m2, part, true, Fork(t), false);
    Compose(m0, m2, m2, t, true, part, true, Fork(t), false);
  }

  lemma ForkOfEmptyKeyDelta(m0: Table, m1: Table, t: Trie)
    requires t.Leaf? && t.key == [] && Shaped(Fork(t))
    requires Delta(m0, m1, t, true, t, false)
    ensures Delta(m0, m1, t, true, Fork(t), false)
  {
    hide Delta;
    forall h ensures Below(t, h) == Below(Fork(t), h) { ForkOfEmptyKeyBelow(t, h); }
    Same(m1, t, false, Fork(t), false);
    Compose(m0, m1, m1, t, true, t, false, Fork(t), false);
  }
}
