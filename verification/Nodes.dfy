/**
  How a trie is stored: every node is an RLP item, and a child of 32 bytes or more is replaced
  by its hash.
 */
module Nodes {
  import opened Items
  import opened Trie
  import HexPrefix
  import Rlp

  /** The size of the encoded item; a hash is 32 bytes behind a one-byte header. */
  function ItemSize(x: Item): (n: nat)
    ensures n >= 1
  {
    match x
    case Data(b) => if |b| == 1 && b[0] < Rlp.DataStart then 1 else Rlp.HeaderSize(|b|) + |b|
    case List(items) => Rlp.HeaderSize(SizeAll(items)) + SizeAll(items)
    case Digest(_) => 33
  }

  function SizeAll(items: seq<Item>): nat {
    if items == [] then 0 else ItemSize(items[0]) + SizeAll(items[1..])
  }

  /** Nodes of fewer bytes than a hash are written out inside their parent. */
  predicate Inlined(x: Item) {
    ItemSize(x) < HashSize
  }

  // ---------------------------------------------------------------- nodes

  function NodeItem(t: Trie): (x: Item)
    requires Shaped(t)
    ensures t == Empty <==> IsEmpty(x)
    ensures (t.Leaf? || t.Ext?) <==> x.List? && |x.items| == 2
    ensures t.Branch? <==> x.List? && |x.items| == 17
    ensures !x.Digest?
    decreases t, 0
  {
    match t
    case Empty => Null
    case Leaf(key, value) => List([Data(HexPrefix.Encode(key, true)), Data(value)])
    case Ext(key, child) => List([Data(HexPrefix.Encode(key, false)), Ref(child)])
    case Branch(slots, value) =>
      List(seq(16, i requires 0 <= i < 16 => Ref(slots[i])) + [Data(value)])
  }

  /** How a child appears in its parent. */
  function Ref(t: Trie): (x: Item)
    requires Shaped(t)
    ensures t == Empty <==> IsEmpty(x)
    decreases t, 1
  {
    if Inlined(NodeItem(t)) then NodeItem(t) else Digest(NodeItem(t))
  }

  /** The `i`th item of a stored branch. */
  lemma BranchItems(t: Trie, i: nat)
    requires Shaped(t) && t.Branch? && i < 17
    ensures |NodeItem(t).items| == 17
    ensures NodeItem(t).items[i] == if i < 16 then Ref(t.slots[i]) else Data(t.value)
    ensures IsEmpty(NodeItem(t).items[i]) <==> !InUse(t.slots, t.value, i)
  {
  }

  /** A stored pair gives back its key and its kind. */
  lemma PairItem(t: Trie)
    requires Shaped(t) && (t.Leaf? || t.Ext?)
    ensures var x := NodeItem(t);
      && x.List? && |x.items| == 2 && x.items[0].Data? && x.items[0].bytes != []
      && KeyOf(x) == t.key && (IsLeaf(x) <==> t.Leaf?)
      && x.items[0] == Data(HexPrefix.Encode(t.key, t.Leaf?))
      && x.items[1] == if t.Leaf? then Data(t.value) else Ref(t.child)
  {
    HexPrefix.DecodeEncode(t.key, t.Leaf?);
  }

  // ---------------------------------------------------------------- occurrences

  /** How often the node with hash `h` is stored for `t` and everything below it. */
  ghost function Own(t: Trie, h: Hash): nat
    requires Shaped(t)
    decreases t, 1
  {
    (if !Inlined(NodeItem(t)) && h == Sha3(NodeItem(t)) then 1 else 0) + Below(t, h)
  }

  /** How often it is stored for what lies strictly below `t`. */
  ghost function Below(t: Trie, h: Hash): nat
    requires Shaped(t)
    decreases t, 0
  {
    match t
    case Empty => 0
    case Leaf(_, _) => 0
    case Ext(_, child) => Own(child, h)
    case Branch(slots, _) => Sum(slots, h)
  }

  ghost function Sum(slots: seq<Trie>, h: Hash): nat
    requires forall i | 0 <= i < |slots| :: Shaped(slots[i])
    decreases slots, 0
  {
    if slots == [] then 0 else Own(slots[0], h) + Sum(slots[1..], h)
  }

  /** Changing a slot changes the sum by what that slot contributes. */
  lemma {:induction false} SumUpdate(slots: seq<Trie>, i: nat, c: Trie, h: Hash)
    requires i < |slots| && Shaped(c) && forall j | 0 <= j < |slots| :: Shaped(slots[j])
    ensures Sum(slots[i := c], h) + Own(slots[i], h) == Sum(slots, h) + Own(c, h)
  {
    if i == 0 {
      assert slots[i := c][1..] == slots[1..];
    } else {
      assert slots[i := c][1..] == slots[1..][i - 1 := c];
      SumUpdate(slots[1..], i - 1, c, h);
    }
  }

  lemma {:induction false} SumOfEmpty(slots: seq<Trie>, h: Hash)
    requires forall j | 0 <= j < |slots| :: slots[j] == Empty
    ensures Sum(slots, h) == 0
  {
    if slots != [] { SumOfEmpty(slots[1..], h); }
  }

  /** What one slot contributes is part of the sum. */
  lemma SumCovers(slots: seq<Trie>, i: nat, h: Hash)
    requires i < |slots| && forall j | 0 <= j < |slots| :: Shaped(slots[j])
    ensures Own(slots[i], h) <= Sum(slots, h)
  {
    SumUpdate(slots, i, Empty, h);
  }

  // ---------------------------------------------------------------- branches that are not forks

  /** At most one entry of a stored branch is occupied. */
  ghost predicate Lone(x: Item) {
    x.List? && |x.items| == 17 && exists i :: OthersEmpty(x.items, i)
  }

  ghost predicate OthersEmpty(items: seq<Item>, i: int) {
    forall j | 0 <= j < |items| && j != i :: IsEmpty(items[j])
  }

  lemma ForkedIsNotLone(t: Trie)
    requires Shaped(t) && (t.Branch? ==> Forked(t.slots, t.value))
    ensures !Lone(NodeItem(t))
  {
    if t.Branch? {
      var a, b :| a != b && InUse(t.slots, t.value, a) && InUse(t.slots, t.value, b);
      BranchItems(t, a);
      BranchItems(t, b);
    }
  }

  lemma CanonicalIsNotLone(t: Trie)
    requires Canonical(t)
    ensures Shaped(t) && !Lone(NodeItem(t))
  {
    CanonicalIsShaped(t);
    ForkedIsNotLone(t);
  }
}
