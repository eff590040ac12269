/**
  What becomes of a removal that takes a value for the hash of a stored node (libdevcore/TrieDB.h).
  For a value left alone in a branch, isTwoItemNode and graft put the pair of that hash in its
  place. For the value of a leaf that is shorter than the key, the removal goes on in the node of
  that hash, and changes nothing exactly if it does not find the key there.
 */
module TrieStray {
  import opened Astray
  import opened Bytes
  import opened Items
  import opened Trie
  import opened TrieFacts
  import opened TrieRemoval
  import opened MemoryDb
  import opened Nodes
  import opened TrieDb
  import HexPrefix

  // ---------------------------------------------------------------- a value left alone in a branch

  /** graft, on items: a pair fused with the pair looked up for its second entry. */
  function Grafted(x: Item, n: Item): Item
    requires x.List? && |x.items| == 2 && x.items[0].Data? && x.items[0].bytes != []
    requires n.List? && |n.items| == 2 && n.items[0].Data? && n.items[0].bytes != []
  {
    List([Data(HexPrefix.Encode(KeyOf(x) + KeyOf(n), IsLeaf(n))), n.items[1]])
  }

  /** The branch that keeps only its value, as merge makes it a pair before graft is called. */
  function Stranded(v: Bytes): Item { List([Data(HexPrefix.Encode([], true)), Data(v)]) }

  /** The pair found under the value takes its place, unchanged. */
  lemma GraftOfStray(v: Bytes, n: Trie)
    requires Shaped(n) && (n.Leaf? || n.Ext?)
    ensures Grafted(Stranded(v), NodeItem(n)) == NodeItem(n)
  {
    PairItem(n);
    HexPrefix.DecodeEncode([], true);
    assert KeyOf(Stranded(v)) == [];
    assert [] + n.key == n.key;
  }

  /** That is the wrong map, unless the pair is the very leaf of the value, which then is its own hash. */
  lemma StrayIsWrong(v: Bytes, n: Trie)
    requires Canonical(n) && Shaped(n) && v != [] && n != Leaf([], v)
    ensures exists j :: Lookup(n, j) != Lookup(Leaf([], v), j)
  {
    if forall j :: Lookup(n, j) == Lookup(Leaf([], v), j) {
      CanonicalIsUnique(n, Leaf([], v));
    }
  }

  // ---------------------------------------------------------------- a leaf shorter than the key

  /** Every node below `u` is found by its hash. */
  ghost predicate AllSeen(u: Trie, seen: set<Hash>)
    requires Shaped(u)
  {
    forall h :: Below(u, h) > 0 ==> h in seen
  }

  function SightOf(r: Removal): Sight {
    match r
    case NotFound => Missing
    case Fault => Broken
    case Stray | Removed(_) => Found
  }

  lemma ChildSeen(u: Trie, seen: set<Hash>)
    requires Shaped(u) && u.Ext? && AllSeen(u, seen)
    ensures AllSeen(u.child, seen) && (!Inlined(NodeItem(u.child)) ==> Sha3(NodeItem(u.child)) in seen)
  {
    forall h ensures Below(u.child, h) <= Own(u.child, h) == Below(u, h) {}
    assert !Inlined(NodeItem(u.child)) ==> Own(u.child, Sha3(NodeItem(u.child))) >= 1;
  }

  lemma SlotSeen(u: Trie, n: Nibble, seen: set<Hash>)
    requires Shaped(u) && u.Branch? && AllSeen(u, seen)
    ensures AllSeen(u.slots[n], seen) && (!Inlined(NodeItem(u.slots[n])) ==> Sha3(NodeItem(u.slots[n])) in seen)
  {
    forall h ensures Below(u.slots[n], h) <= Own(u.slots[n], h) <= Below(u, h) { SumCovers(u.slots, n, h); }
    assert !Inlined(NodeItem(u.slots[n])) ==> Own(u.slots[n], Sha3(NodeItem(u.slots[n]))) >= 1;
  }

  /** An entry is followed to the node it stands for. */
  lemma RefIsFollowed(c: Trie, k: Key, names: Names)
    requires Shaped(c) && (!Inlined(NodeItem(c)) ==> Sha3(NodeItem(c)) in names.seen)
    ensures SoughtBelow(Ref(c), k, names, names.seen) == Sought(NodeItem(c), k, names, names.seen)
  {
  }

  /** In the node of a trie that is all there, a removal finds the keys of that trie, or fares as there. */
  lemma {:induction false} NamedTrieAnswers(u: Trie, k: Key, names: Names, left: set<Hash>)
    requires Canonical(u) && Shaped(u) && AllSeen(u, names.seen)
    requires u.Leaf? && u.key == [] ==> left == names.seen
    ensures Sought(NodeItem(u), k, names, left) == if Stores(u, k) then Found else SightOf(Delete(u, k, names))
    decreases u
  {
    hide AllSeen, Settle, Attach;
    match u
    case Empty =>
    case Leaf(_, _) => PairItem(u);
    case Ext(key, child) =>
      PairItem(u);
      if key <= k {
        ChildSeen(u, names.seen);
        RefIsFollowed(child, k[|key|..], names);
        NamedTrieAnswers(child, k[|key|..], names, names.seen);
        DeleteIsMapDeletion(child, k[|key|..], k[|key|..], names);
      }
    case Branch(slots, value) =>
      BranchItems(u, 16);
      if k != [] {
        var n := k[0];
        BranchItems(u, n);
        SlotSeen(u, n, names.seen);
        RefIsFollowed(slots[n], k[1..], names);
        NamedTrieAnswers(slots[n], k[1..], names, names.seen);
        DeleteIsMapDeletion(slots[n], k[1..], k[1..], names);
      }
  }

  /**
    For a key that is not stored but extends a stored one that nothing else extends, the trie named
    by that one's value decides: the removal goes astray if it stores the rest of the key, and else
    comes to what the removal of the rest comes to there.
   */
  lemma NamedTrieDecides(m: Store, k: Key, p: Key, u: Trie, names: Names)
    requires NonEmptyValues(m) && p in m && p < k && k !in m && NothingElseExtends(m, p, k)
    requires Canonical(u) && Shaped(u) && AllSeen(u, names.seen) && (u.Leaf? ==> u.key != [])
    requires |m[p]| <= HashSize && names.named(Padded(m[p])) == Sha3(NodeItem(u)) && Sha3(NodeItem(u)) in names.seen
    ensures var rest := k[|p|..];
      Delete(TrieOf(m), k, names) == if Stores(u, rest) then Stray else Delete(u, rest, names)
  {
    var rest, h := k[|p|..], Sha3(NodeItem(u));
    DeleteFromTrieOf(m, k, names);
    NamedTrieAnswers(u, rest, names, names.seen - {h});
    DeleteIsMapDeletion(u, rest, rest, names);
    OneReading(m, k, p, names);
    assert ReadAs(m[p], rest, false, names) == if Stores(u, rest) then Stray else Delete(u, rest, names);
  }

  /** Of such a key only that one value is read. */
  lemma OneReading(m: Store, k: Key, p: Key, names: Names)
    requires p in m && p < k && k !in m && NothingElseExtends(m, p, k)
    ensures forall a, b :: !KeysPart(m, k, a, b)
    ensures forall r :: RemovalReads(m, k, names, r) <==> r == ReadAs(m[p], k[|p|..], false, names)
  {
    forall q | q in m && q < k && NothingElseExtends(m, q, k) ensures q == p {
      PrefixesCompare(p, q, k);
      PrefixesCompare(q, p, k);
    }
    forall a, b ensures !KeysPart(m, k, a, b) {
      if a in m && k < a { PrefixTransitive(p, k, a); }
    }
  }

  /** What is written for the leaf when `u` is left of the trie its value names; graft if that is a pair. */
  function LeafOver(key: Key, u: Trie): Item
    requires Shaped(u)
  {
    var x := List([Data(HexPrefix.Encode(key, true)), Ref(u)]);
    if u.Leaf? || u.Ext? then Grafted(x, PairOf(u)) else x
  }

  /** `NodeItem` of a pair, known to have a key. */
  function PairOf(u: Trie): (n: Item)
    requires Shaped(u) && (u.Leaf? || u.Ext?)
    ensures n == NodeItem(u) && IsPair(n) && n.items[0].Data? && n.items[0].bytes != []
  {
    NodeItem(u)
  }

  /** That is no longer the leaf, unless what is left is again a leaf with nothing but the value. */
  lemma LeafIsOverwritten(key: Key, v: Bytes, u: Trie)
    requires Shaped(u) && v != []
    ensures LeafOver(key, u) == NodeItem(Leaf(key, v)) <==> u == Leaf([], v)
  {
    if u.Leaf? || u.Ext? {
      PairItem(u);
      HexPrefix.DecodeEncode(key, true);
      HexPrefix.DecodeEncode(key + u.key, u.Leaf?);
      assert key + u.key == key <==> u.key == [] by { assert |key + u.key| == |key| + |u.key|; }
    }
  }

  // ---------------------------------------------------------------- tries for the inputs

  /** A branch with two occupied slots. */
  function TwoSlots(i: Nibble, a: Trie, j: Nibble, b: Trie): Trie { Branch(NoSlots()[i := a][j := b], []) }

  lemma TwoSlotsHold(i: Nibble, a: Trie, j: Nibble, b: Trie, k: Key)
    requires i != j && Canonical(a) && Canonical(b) && a != Empty && b != Empty
    ensures var t := TwoSlots(i, a, j, b);
      && Canonical(t) && Shaped(t) && Shaped(a) && Shaped(b)
      && t.slots[i] == a && t.slots[j] == b
      && Lookup(t, k) == if k == [] then [] else if k[0] == i then Lookup(a, k[1..]) else if k[0] == j then Lookup(b, k[1..]) else []
  {
    var t := TwoSlots(i, a, j, b);
    assert Canonical(Empty);
    ForkedBy(t.slots, [], i, j);
    CanonicalIsShaped(t);
    if k != [] && k[0] != i && k[0] != j { assert t.slots[k[0]] == Empty; }
  }

  /** What is put into an empty slot is added to the sum. */
  lemma SumPut(slots: seq<Trie>, i: nat, c: Trie, h: Hash)
    requires i < |slots| && slots[i] == Empty && Shaped(c) && forall j | 0 <= j < |slots| :: Shaped(slots[j])
    ensures var after := slots[i := c]; forall j | 0 <= j < |after| :: Shaped(after[j])
    ensures Sum(slots[i := c], h) == Sum(slots, h) + Own(c, h)
  {
    hide Shaped, NodeItem;
    SumUpdate(slots, i, c, h);
    NothingOwned();
  }

  /** Only the two entries count below such a branch. */
  lemma TwoSlotsCount(i: Nibble, a: Trie, j: Nibble, b: Trie, h: Hash)
    requires i != j && Shaped(a) && Shaped(b)
    ensures Shaped(TwoSlots(i, a, j, b)) && Below(TwoSlots(i, a, j, b), h) == Own(a, h) + Own(b, h)
  {
    hide Own, NodeItem, Sum;
    SumOfEmpty(NoSlots(), h);
    SumPut(NoSlots(), i, a, h);
    SumPut(NoSlots()[i := a], j, b, h);
  }

  lemma LeafIsLarge(key: Key, x: Bytes)
    requires |x| >= HashSize
    ensures !Inlined(NodeItem(Leaf(key, x))) && Own(Leaf(key, x), Sha3(NodeItem(Leaf(key, x)))) == 1
  {
    SizeCovers(NodeItem(Leaf(key, x)).items, 1);
  }

  lemma First(k: Key, n: Nibble, rest: Key, whole: Key)
    requires whole == [n] + rest
    ensures k == whole <==> k != [] && k[0] == n && k[1..] == rest
  {
    if k != [] { assert k == [k[0]] + k[1..]; }
  }

  const Near: Key := [1, 1]
  const Far: Key := [1, 1, 2, 2]
  const Aside: Key := [5, 5]

  /** The leaf of the key aside. */
  function LeafAside(x: Bytes): Trie { Leaf([5], x) }

  function TwoKeys(v: Bytes, x: Bytes): Store { map[Near := v, Aside := x] }

  lemma TwoKeyTrie(v: Bytes, x: Bytes)
    requires v != [] && x != []
    ensures NonEmptyValues(TwoKeys(v, x)) && TrieOf(TwoKeys(v, x)) == TwoSlots(1, Leaf([1], v), 5, LeafAside(x))
  {
    var t, m := TwoSlots(1, Leaf([1], v), 5, LeafAside(x)), TwoKeys(v, x);
    TwoSlotsHold(1, Leaf([1], v), 5, LeafAside(x), []);
    forall j ensures Lookup(t, j) == ValueAt(m, j) {
      TwoSlotsHold(1, Leaf([1], v), 5, LeafAside(x), j);
      First(j, 1, [1], Near);
      First(j, 5, [5], Aside);
    }
    TrieOfIsUnique(t, m);
  }

  function ThreeKeys(v: Bytes, w: Bytes, x: Bytes): Store { map[Near := v, Far := w, Aside := x] }

  /** The branch at which the first two keys part, and the extension above it. */
  function InnerBranch(v: Bytes, w: Bytes): Trie { Branch(NoSlots()[2 := Leaf([2], w)], v) }

  lemma InnerHolds(v: Bytes, w: Bytes, r: Key)
    requires v != [] && w != []
    ensures var u := Ext([1], InnerBranch(v, w));
      && Canonical(u) && Shaped(u) && Shaped(InnerBranch(v, w))
      && Lookup(u, r) == if r == [1] then v else if r == [1, 2, 2] then w else []
  {
    var inner := InnerBranch(v, w);
    assert Canonical(Empty) && Canonical(Leaf([2], w));
    ForkedBy(inner.slots, v, 2, 16);
    assert Canonical(inner);
    CanonicalIsShaped(Ext([1], inner));
    if [1] <= r {
      var q := r[1..];
      First(r, 1, [2, 2], [1, 2, 2]);
      First(r, 1, [], [1]);
      First(q, 2, [2], [2, 2]);
      if q != [] {
        assert inner.slots[q[0]] == if q[0] == 2 then Leaf([2], w) else Empty;
        assert Lookup(inner, q) == Lookup(inner.slots[q[0]], q[1..]);
      }
      assert Lookup(inner, q) == if q == [] then v else if q == [2, 2] then w else [];
      assert Lookup(Ext([1], inner), r) == Lookup(inner, q);
    }
  }

  lemma ThreeKeyTrie(v: Bytes, w: Bytes, x: Bytes)
    requires v != [] && w != [] && x != []
    ensures NonEmptyValues(ThreeKeys(v, w, x))
    ensures TrieOf(ThreeKeys(v, w, x)) == TwoSlots(1, Ext([1], InnerBranch(v, w)), 5, LeafAside(x))
  {
    var u, m := Ext([1], InnerBranch(v, w)), ThreeKeys(v, w, x);
    var t := TwoSlots(1, u, 5, LeafAside(x));
    InnerHolds(v, w, []);
    TwoSlotsHold(1, u, 5, LeafAside(x), []);
    forall j ensures Lookup(t, j) == ValueAt(m, j) {
      TwoSlotsHold(1, u, 5, LeafAside(x), j);
      First(j, 1, [1], Near);
      First(j, 1, [1, 2, 2], Far);
      First(j, 5, [5], Aside);
      if j != [] { InnerHolds(v, w, j[1..]); }
    }
    TrieOfIsUnique(t, m);
  }

  /** A leaf with another key, and what is no leaf, does not have the hash of a leaf. */
  lemma OtherNode(key: Key, x: Bytes, u: Trie)
    requires Shaped(u) && (u.Leaf? ==> u.key != key)
    ensures NodeItem(u) != NodeItem(Leaf(key, x))
    ensures Own(u, Sha3(NodeItem(Leaf(key, x)))) == Below(u, Sha3(NodeItem(Leaf(key, x))))
  {
    PairItem(Leaf(key, x));
    if u.Leaf? || u.Ext? { PairItem(u); }
  }

  lemma InnerHasNoAside(v: Bytes, w: Bytes, x: Bytes)
    requires v != [] && w != []
    ensures var h := Sha3(NodeItem(LeafAside(x)));
      && Shaped(Ext([1], InnerBranch(v, w))) && Own(InnerBranch(v, w), h) == 0 && Own(Ext([1], InnerBranch(v, w)), h) == 0
  {
    var h := Sha3(NodeItem(LeafAside(x)));
    InnerHolds(v, w, []);
    OtherNode([5], x, Leaf([2], w));
    OtherNode([5], x, InnerBranch(v, w));
    OtherNode([5], x, Ext([1], InnerBranch(v, w)));
    SumOfEmpty(NoSlots(), h);
    SumUpdate(NoSlots(), 2, Leaf([2], w), h);
  }

  /** Nothing but the leaf aside has its hash. */
  lemma AsideIsCountedOnce(v: Bytes, w: Bytes, x: Bytes)
    requires v != [] && w != [] && |x| >= HashSize
    ensures var h := Sha3(NodeItem(LeafAside(x)));
      && h != Sha3(NodeItem(TrieOf(ThreeKeys(v, w, x)))) && Below(TrieOf(ThreeKeys(v, w, x)), h) == 1
      && Below(TrieOf(TwoKeys(v, x)), h) >= 1
  {
    hide NodeItem, InnerBranch, TwoSlots, Below, Own;
    var h := Sha3(NodeItem(LeafAside(x)));
    ThreeKeyTrie(v, w, x);
    TwoKeyTrie(v, x);
    LeafIsLarge([5], x);
    InnerHasNoAside(v, w, x);
    TwoSlotsCount(1, Ext([1], InnerBranch(v, w)), 5, LeafAside(x), h);
    TwoSlotsCount(1, Leaf([1], v), 5, LeafAside(x), h);
    TwoSlotsIsNoLeaf(1, Ext([1], InnerBranch(v, w)), 5, LeafAside(x));
  }

  lemma TwoSlotsIsNoLeaf(i: Nibble, a: Trie, j: Nibble, b: Trie)
    requires Shaped(a) && Shaped(b) && i != j
    ensures Shaped(TwoSlots(i, a, j, b)) && |NodeItem(TwoSlots(i, a, j, b)).items| == 17
  {
  }

  // ---------------------------------------------------------------- three inputs

  /**
    A store whose first value is the hash of the leaf aside: removing the second key goes astray, and
    puts that leaf where the first value was. After the inner branch has been given up, the leaf
    aside loses a reference that the trie without the second key needs.
   */
  lemma StrayExample(named: Bytes -> Hash, base: Table, main: Table, mid: Table, v: Bytes, w: Bytes, x: Bytes)
    requires v != [] && |v| <= HashSize && w != [] && |x| >= HashSize && named(Padded(v)) == Sha3(NodeItem(LeafAside(x)))
    requires Coherent(main) && RootHeld(base, main, TrieOf(ThreeKeys(v, w, x)))
    requires Shaped(InnerBranch(v, w)) && GaveUp(main, mid, InnerBranch(v, w))
    ensures var m, names := ThreeKeys(v, w, x), NamesSeen(main, false, named);
      RemovalStrays(m, Far, names) && !RemovalFails(m, Far, names)
    ensures Grafted(Stranded(v), PairOf(LeafAside(x))) == NodeItem(LeafAside(x))
    ensures Lookup(LeafAside(x), []) == [] && Lookup(LeafAside(x), [5]) == x
    ensures var h := Sha3(NodeItem(LeafAside(x)));
      0 < Refs(mid, h) == Refs(base, h) + 1 <= Refs(base, h) + Below(TrieOf(ThreeKeys(v, w, x) - {Far}), h)
  {
    hide NodeItem, Below, Own, RemovalFails, RemovalStrays, InnerBranch, ValueAt, NonEmptyValues;
    var m, h := ThreeKeys(v, w, x), Sha3(NodeItem(LeafAside(x)));
    InnerHasNoAside(v, w, x);
    AsideIsCountedOnce(v, w, x);
    assert m - {Far} == TwoKeys(v, x);
    assert Refs(main, h) == Refs(base, h) + 1;
    PairItem(LeafAside(x));
    StraysAt(m, Far, Near, NamesSeen(main, false, named));
    GraftOfStray(v, LeafAside(x));
  }

  lemma StraysAt(m: Store, k: Key, p: Key, names: Names)
    requires p in m && k in m && p < k && NothingElseExtends(m, p, k) && ReadAsPair(m[p], names) == Stray
    requires forall q :: q in m && q < k ==> q == p
    ensures RemovalStrays(m, k, names) && !RemovalFails(m, k, names)
  {
    assert ReadAs(m[p], k[|p|..], k in m, names) == Stray;
  }

  /** With the same value, removing a longer key that is not stored looks at that leaf and changes nothing. */
  lemma HarmlessExample(named: Bytes -> Hash, base: Table, main: Table, v: Bytes, x: Bytes)
    requires v != [] && |v| <= HashSize && |x| >= HashSize && named(Padded(v)) == Sha3(NodeItem(LeafAside(x)))
    requires Coherent(main) && RootHeld(base, main, TrieOf(TwoKeys(v, x)))
    ensures var m, names := TwoKeys(v, x), NamesSeen(main, false, named);
      Delete(TrieOf(m), Far, names) == NotFound && !RemovalFails(m, Far, names) && !RemovalStrays(m, Far, names)
  {
    var m, names, h := TwoKeys(v, x), NamesSeen(main, false, named), Sha3(NodeItem(LeafAside(x)));
    TwoKeyTrie(v, x);
    TwoSlotsCount(1, Leaf([1], v), 5, LeafAside(x), h);
    LeafIsLarge([5], x);
    assert Refs(main, h) >= Below(TrieOf(m), h) >= 1;
    FarExtendsNear(m);
    NamedTrieDecides(m, Far, Near, LeafAside(x), names);
    DeleteFromTrieOf(m, Far, names);
  }

  function OtherKeys(v: Bytes, x: Bytes, y: Bytes): Store { map[Near := v, [5, 5, 2, 2] := x, [5, 6, 2, 2] := y] }

  lemma OtherKeyTrie(v: Bytes, x: Bytes, y: Bytes)
    requires v != [] && x != [] && y != []
    ensures NonEmptyValues(OtherKeys(v, x, y))
    ensures TrieOf(OtherKeys(v, x, y)) == TwoSlots(1, Leaf([1], v), 5, TwoSlots(5, Leaf([2, 2], x), 6, Leaf([2, 2], y)))
  {
    var u, m := TwoSlots(5, Leaf([2, 2], x), 6, Leaf([2, 2], y)), OtherKeys(v, x, y);
    var t := TwoSlots(1, Leaf([1], v), 5, u);
    TwoSlotsHold(5, Leaf([2, 2], x), 6, Leaf([2, 2], y), []);
    TwoSlotsHold(1, Leaf([1], v), 5, u, []);
    forall j ensures Lookup(t, j) == ValueAt(m, j) {
      TwoSlotsHold(1, Leaf([1], v), 5, u, j);
      First(j, 1, [1], Near);
      First(j, 5, [5, 2, 2], [5, 5, 2, 2]);
      First(j, 5, [6, 2, 2], [5, 6, 2, 2]);
      if j != [] {
        TwoSlotsHold(5, Leaf([2, 2], x), 6, Leaf([2, 2], y), j[1..]);
        First(j[1..], 5, [2, 2], [5, 2, 2]);
        First(j[1..], 6, [2, 2], [6, 2, 2]);
      }
    }
    TrieOfIsUnique(t, m);
  }

  lemma OtherLeafIsCounted(base: Table, main: Table, v: Bytes, x: Bytes, y: Bytes)
    requires v != [] && |x| >= HashSize && y != [] && RootHeld(base, main, TrieOf(OtherKeys(v, x, y)))
    ensures var t, h := TrieOf(OtherKeys(v, x, y)), Sha3(NodeItem(Leaf([2, 2], x)));
      h in main && 0 < Below(t, h) && Refs(main, h) == Refs(base, h) + Below(t, h)
  {
    hide NodeItem;
    var h := Sha3(NodeItem(Leaf([2, 2], x)));
    var u := TwoSlots(5, Leaf([2, 2], x), 6, Leaf([2, 2], y));
    OtherKeyTrie(v, x, y);
    TwoSlotsCount(5, Leaf([2, 2], x), 6, Leaf([2, 2], y), h);
    TwoSlotsCount(1, Leaf([1], v), 5, u, h);
    TwoSlotsIsNoLeaf(1, Leaf([1], v), 5, u);
    LeafIsLarge([2, 2], x);
  }

  lemma LeafIsAllThere(key: Key, x: Bytes, seen: set<Hash>)
    requires x != []
    ensures Canonical(Leaf(key, x)) && Shaped(Leaf(key, x)) && AllSeen(Leaf(key, x), seen)
  {
  }

  lemma WrittenEmpty(key: Key)
    ensures LeafOver(key, Empty) == NodeItem(Leaf(key, []))
  {
  }

  lemma FarExtendsNear(m: Store)
    requires Near in m && forall j :: j in m && j != Near ==> |j| > 0 && j[0] == 5
    ensures Near < Far && Far !in m && NothingElseExtends(m, Near, Far) && Far[|Near|..] == [2, 2]
  {
  }

  /**
    If the value is the hash of a leaf that holds the rest of the key, the removal takes that leaf
    out: the first key is left with an empty value, and the other key's leaf with a reference less
    than the trie needs.
   */
  lemma HarmfulExample(named: Bytes -> Hash, base: Table, main: Table, v: Bytes, x: Bytes, y: Bytes)
    requires v != [] && |v| <= HashSize && |x| >= HashSize && y != []
    requires named(Padded(v)) == Sha3(NodeItem(Leaf([2, 2], x)))
    requires Coherent(main) && RootHeld(base, main, TrieOf(OtherKeys(v, x, y)))
    ensures var m, names := OtherKeys(v, x, y), NamesSeen(main, false, named);
      && Far !in m && RemovalStrays(m, Far, names) && !RemovalFails(m, Far, names)
      && Delete(Leaf([2, 2], x), Far[|Near|..], names) == Removed(Empty)
    ensures LeafOver([1], Empty) == NodeItem(Leaf([1], []))
    ensures var t, h := TrieOf(OtherKeys(v, x, y)), Sha3(NodeItem(Leaf([2, 2], x)));
      0 < Below(t, h) && Refs(main, h) == Refs(base, h) + Below(t, h)
  {
    hide TwoSlots, Below, Own, NodeItem, RootHeld, Canonical, RemovalFails, RemovalStrays, NothingElseExtends, ValueAt;
    var m, names := OtherKeys(v, x, y), NamesSeen(main, false, named);
    OtherLeafIsCounted(base, main, v, x, y);
    OtherKeyTrie(v, x, y);
    FarExtendsNear(m);
    LeafIsAllThere([2, 2], x, names.seen);
    NamedTrieDecides(m, Far, Near, Leaf([2, 2], x), names);
    DeleteFromTrieOf(m, Far, names);
    WrittenEmpty([1]);
  }
}
