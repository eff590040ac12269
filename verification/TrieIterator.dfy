/**
  The iterator of GenericTrieDB: a trail of stored nodes from the root to the current entry.
  What it still has to visit is compared with the ordered entries of the trie.
 */
module TrieIterator {
  import opened Bytes
  import opened Items
  import opened Trie
  import opened TrieFacts
  import opened TrieOrder
  import opened TrieSeek
  import opened Nodes
  import opened MemoryDb
  import opened Ledger
  import HexPrefix
  import TrieDb

  /** `child` is 255 on entering a node, 16 at its own value, 0 to 15 below a slot, 17 when done. */
  datatype Frame = Frame(rlp: Item, key: Bytes, child: nat)

  const Entering := 255
  const AtValue := 16
  const Exiting := 17

  function Following(child: nat): nat {
    if child == AtValue then 0 else if child == 15 then Exiting else child + 1
  }

  function PathOf(f: Frame): Key {
    HexPrefix.KeyOf(f.key).Nibbles()
  }

  /** The frame shows the stored form of `node`, reached by the nibbles of its key. */
  ghost predicate Shows(f: Frame, node: Trie, m: Table) {
    && Canonical(node) && Shaped(node) && f.rlp == NodeItem(node)
    && f.key == HexPrefix.Encode(PathOf(f), false)
    && Covers(m, node, false)
    && (f.child == Entering || (node.Branch? && f.child <= Exiting) || (node.Leaf? && f.child == 0))
  }

  ghost predicate Trailing(trail: seq<Frame>, nodes: seq<Trie>, m: Table) {
    |nodes| == |trail| && forall i | 0 <= i < |trail| :: Shows(trail[i], nodes[i], m)
  }

  // ---------------------------------------------------------------- what is left to visit

  /** The entries of a branch from position `child` on, that position included. */
  ghost function Pending(node: Trie, child: nat, path: Key): seq<Pair>
    requires Shaped(node) && node.Branch? && child <= Exiting
  {
    if child == Exiting then []
    else if child == AtValue then OwnValue(node.value, path) + SlotEntries(node.slots, 0, path)
    else SlotEntries(node.slots, child, path)
  }

  /** The entries a frame still has to offer. */
  ghost function Rest(f: Frame, node: Trie): seq<Pair>
    requires Shaped(node) && (f.child == Entering || (node.Branch? && f.child <= Exiting) || (node.Leaf? && f.child == 0))
  {
    if f.child == Entering then Entries(node, PathOf(f))
    else if node.Leaf? then []
    else if f.child == Exiting then []
    else if f.child == AtValue then SlotEntries(node.slots, 0, PathOf(f))
    else SlotEntries(node.slots, f.child + 1, PathOf(f))
  }

  ghost function RestOf(trail: seq<Frame>, nodes: seq<Trie>, m: Table): seq<Pair>
    requires Trailing(trail, nodes, m)
    decreases |trail|
  {
    if trail == [] then []
    else
      var n := |trail| - 1;
      assert Shows(trail[n], nodes[n], m);
      Rest(trail[n], nodes[n]) + RestOf(trail[..n], nodes[..n], m)
  }

  // ---------------------------------------------------------------- how much work that is

  ghost function Work(t: Trie): nat
    requires Shaped(t)
    decreases t, 0
  {
    match t
    case Empty => 1
    case Leaf(_, _) => 1
    case Ext(_, child) => 1 + Work(child)
    case Branch(slots, _) => 2 + SlotWork(slots, 0)
  }

  ghost function SlotWork(slots: seq<Trie>, i: nat): nat
    requires |slots| == 16 && i <= 16 && forall j | 0 <= j < 16 :: Shaped(slots[j])
    decreases slots, 16 - i
  {
    if i == 16 then 0 else 1 + Work(slots[i]) + SlotWork(slots, i + 1)
  }

  ghost function PendingWork(node: Trie, child: nat): nat
    requires Shaped(node) && node.Branch? && child <= Exiting
  {
    if child == Exiting then 0
    else if child == AtValue then 1 + SlotWork(node.slots, 0)
    else SlotWork(node.slots, child)
  }

  ghost function FrameWork(f: Frame, node: Trie): nat
    requires Shaped(node) && (f.child == Entering || (node.Branch? && f.child <= Exiting) || (node.Leaf? && f.child == 0))
  {
    if f.child == Entering then Work(node)
    else if node.Leaf? then 1
    else if f.child == Exiting then 1
    else 1 + PendingWork(node, Following(f.child))
  }

  ghost function TrailWork(trail: seq<Frame>, nodes: seq<Trie>, m: Table): nat
    requires Trailing(trail, nodes, m)
    decreases |trail|
  {
    if trail == [] then 0
    else
      var n := |trail| - 1;
      assert Shows(trail[n], nodes[n], m);
      FrameWork(trail[n], nodes[n]) + TrailWork(trail[..n], nodes[..n], m)
  }

  lemma {:induction false} SlotWorkShrinks(slots: seq<Trie>, i: nat)
    requires |slots| == 16 && i <= 16 && forall j | 0 <= j < 16 :: Shaped(slots[j])
    ensures SlotWork(slots, i) <= SlotWork(slots, 0)
    decreases i
  {
    if i > 0 { SlotWorkShrinks(slots, i - 1); }
  }

  /** What a frame has left is what is pending at its next position. */
  lemma RestIsPending(f: Frame, node: Trie)
    requires Shaped(node) && node.Branch? && f.child < Exiting
    ensures Rest(f, node) == Pending(node, Following(f.child), PathOf(f))
  {
  }

  /** A trail and its top. */
  lemma TopOf(trail: seq<Frame>, nodes: seq<Trie>, m: Table)
    requires Trailing(trail, nodes, m) && trail != []
    ensures var n := |trail| - 1;
      && Shows(trail[n], nodes[n], m) && Trailing(trail[..n], nodes[..n], m)
      && RestOf(trail, nodes, m) == Rest(trail[n], nodes[n]) + RestOf(trail[..n], nodes[..n], m)
      && TrailWork(trail, nodes, m) == FrameWork(trail[n], nodes[n]) + TrailWork(trail[..n], nodes[..n], m)
  {
    assert Shows(trail[|trail| - 1], nodes[|trail| - 1], m);
  }

  /** A frame put on top of a trail. */
  lemma Pushed(trail: seq<Frame>, nodes: seq<Trie>, f: Frame, node: Trie, m: Table)
    requires Trailing(trail, nodes, m) && Shows(f, node, m)
    ensures Trailing(trail + [f], nodes + [node], m)
    ensures RestOf(trail + [f], nodes + [node], m) == Rest(f, node) + RestOf(trail, nodes, m)
    ensures TrailWork(trail + [f], nodes + [node], m) == FrameWork(f, node) + TrailWork(trail, nodes, m)
  {
    var n := |trail|;
    assert (trail + [f])[..n] == trail && (nodes + [node])[..n] == nodes;
  }

  ghost function GoalOf(trail: seq<Frame>, nodes: seq<Trie>, m: Table, k: Key): seq<Pair>
    requires Trailing(trail, nodes, m)
    requires k != [] ==> trail != [] && trail[|trail| - 1].child == Entering
  {
    if k == [] then RestOf(trail, nodes, m)
    else
      var n := |trail| - 1;
      assert Shows(trail[n], nodes[n], m);
      Seek(nodes[n], PathOf(trail[n]), k) + RestOf(trail[..n], nodes[..n], m)
  }

  /** On entering a node, what the search still wants is what it wants from that node, and the rest. */
  lemma GoalOfPushed(trail: seq<Frame>, nodes: seq<Trie>, f: Frame, node: Trie, m: Table, k: Key)
    requires Trailing(trail, nodes, m) && Shows(f, node, m) && f.child == Entering
    ensures Trailing(trail + [f], nodes + [node], m)
    ensures GoalOf(trail + [f], nodes + [node], m, k) == Seek(node, PathOf(f), k) + RestOf(trail, nodes, m)
  {
    Pushed(trail, nodes, f, node, m);
    SeekEmptyKey(node, PathOf(f));
    var n := |trail|;
    assert (trail + [f])[..n] == trail && (nodes + [node])[..n] == nodes && (trail + [f])[n] == f;
  }

  /** The key of a frame one step further down. */
  lemma LongerKey(f: Frame, q: Key)
    ensures HexPrefix.KeyOf(HexPrefix.Encode(PathOf(f) + q, false)).Nibbles() == PathOf(f) + q
  {
    HexPrefix.DecodeEncode(PathOf(f) + q, false);
  }

  /** What is pending from a position on when `k` is still sought in the slot there. */
  ghost function SeekPending(node: Trie, child: nat, path: Key, k: Key): seq<Pair>
    requires Shaped(node) && node.Branch? && child <= Exiting
  {
    if child < 16 then Seek(node.slots[child], path + [child], k) + SlotEntries(node.slots, child + 1, path)
    else Pending(node, child, path)
  }

  /** With nothing sought, everything from the position on is pending. */
  lemma SeekPendingEmptyKey(node: Trie, child: nat, path: Key)
    requires Shaped(node) && node.Branch? && child <= Exiting
    ensures SeekPending(node, child, path, []) == Pending(node, child, path)
  {
    if child < 16 { SeekEmptyKey(node.slots[child], path + [child]); }
  }

  /** An unoccupied position has nothing pending of its own. */
  lemma SkipEmpty(node: Trie, child: nat, path: Key, k: Key)
    requires Shaped(node) && node.Branch? && child < Exiting && !InUse(node.slots, node.value, child)
    ensures SeekPending(node, child, path, k) == SeekPending(node, Following(child), path, [])
    ensures PendingWork(node, Following(child)) <= PendingWork(node, child)
  {
    SeekPendingEmptyKey(node, Following(child), path);
  }

  lemma FoundValue(node: Trie, path: Key, later: seq<Pair>)
    requires Shaped(node) && node.Branch? && node.value != []
    ensures [Pair(path, node.value)] + (SlotEntries(node.slots, 0, path) + later) == Pending(node, AtValue, path) + later
  {
  }

  lemma SlotGoal(node: Trie, child: nat, path: Key, k: Key, later: seq<Pair>)
    requires Shaped(node) && node.Branch? && child < 16
    ensures Seek(node.slots[child], path + [child], k) + (SlotEntries(node.slots, child + 1, path) + later)
         == SeekPending(node, child, path, k) + later
  {
  }

  /**
    The inner loop of both `next` functions: from a position on, looks for an occupied entry. Past
    the slot where the key was sought nothing is skipped any more.
   */
  method FindOccupied(rlp: Item, start: nat, sought: Key, ghost node: Trie, ghost path: Key) returns (child: nat, k: Key)
    requires Shaped(node) && node.Branch? && rlp == NodeItem(node) && start <= Exiting
    requires sought != [] ==> start < 16
    ensures sought == [] ==> k == []
    ensures child <= Exiting && (k != [] ==> child < 16) && (child != Exiting ==> InUse(node.slots, node.value, child))
    ensures SeekPending(node, child, path, k) == SeekPending(node, start, path, sought)
    ensures PendingWork(node, child) <= PendingWork(node, start)
  {
    child, k := start, sought;
    while child != Exiting
      invariant child <= Exiting && (k != [] ==> child < 16) && (sought == [] ==> k == [])
      invariant SeekPending(node, child, path, k) == SeekPending(node, start, path, sought)
      invariant PendingWork(node, child) <= PendingWork(node, start)
      decreases if child == AtValue then 18 else Exiting - child
    {
      BranchItems(node, child);
      if !IsEmpty(rlp.items[child]) { return; }
      SkipEmpty(node, child, path, k);
      k := [];
      child := Following(child);
    }
  }

  // ---------------------------------------------------------------- the iterator

  class Iterator {
    const that: TrieDb.TrieDb
    var trail: seq<Frame>
    ghost var nodes: seq<Trie>

    ghost predicate Valid()
      reads this, that.db
    {
      Coherent(that.db.main) && Trailing(trail, nodes, that.db.main)
    }

    /** What the iterator has not yet visited. */
    ghost function Left(): seq<Pair>
      requires Valid()
      reads this, that.db
    {
      RestOf(trail, nodes, that.db.main)
    }

    ghost predicate AtEntry()
      reads this
    {
      && trail != [] && |nodes| == |trail|
      && var f, node := trail[|trail| - 1], nodes[|trail| - 1];
      (node.Leaf? && f.child == 0) || (node.Branch? && f.child == AtValue && node.value != [])
    }

    /** The entry the iterator stands at. */
    ghost function Current(): Pair
      requires AtEntry()
      reads this
    {
      Pair(PathOf(trail[|trail| - 1]), nodes[|trail| - 1].value)
    }

    /** Before the first entry of a valid trie. */
    constructor (trie: TrieDb.TrieDb)
      requires trie.Valid()
      ensures that == trie && Valid() && Left() == Entries(TrieOf(trie.contents), [])
      ensures |trail| == 1 && trail[0].child == Entering && nodes == [TrieOf(trie.contents)] && PathOf(trail[0]) == []
    {
      that := trie;
      trail, nodes := [], [];
      new;
      ghost var t := TrieOf(that.contents);
      TrieDb.RootCovers(that.others, that.db.main, t);
      StoredCoversBelow(that.db.main, t);
      var rlp := that.RootItem();
      var f := Frame(rlp, HexPrefix.Encode([], false), Entering);
      HexPrefix.DecodeEncode([], false);
      Pushed([], [], f, t, that.db.main);
      trail, nodes := [] + [f], [] + [t];
      assert Left() == Entries(t, []) + [];
    }

    /** At the start everything is to be visited, and the search is for the whole key. */
    lemma GoalAtStart(k: Key)
      requires Valid() && that.Valid() && |trail| == 1 && trail[0].child == Entering
      requires nodes == [TrieOf(that.contents)] && PathOf(trail[0]) == []
      ensures Enters(k) && Goal(k) == DropBefore(Entries(TrieOf(that.contents), []), k)
    {
      GoalOnEntering(k);
      assert [] + k == k;
      assert trail[..0] == [] && nodes[..0] == [];
      assert Later() == [];
    }

    /** The search for `k` below the top frame may only be pending when that frame is being entered. */
    ghost predicate Enters(k: Key)
      reads this
    {
      k != [] ==> trail != [] && |nodes| == |trail| && trail[|trail| - 1].child == Entering
    }

    /** What is left once everything before the key sought is skipped; no key, nothing skipped. */
    ghost function Goal(k: Key): seq<Pair>
      requires Valid() && Enters(k)
      reads this, that.db
    {
      GoalOf(trail, nodes, that.db.main, k)
    }

    /** at: the key as bytes, of which its nibbles must make a whole number, and the value. */
    method At() returns (key: Bytes, value: Bytes)
      requires Valid() && AtEntry() && |Current().key| % 2 == 0
      ensures Pair(AsNibbles(key), value) == Current()
    {
      var b := trail[|trail| - 1];
      ghost var node := nodes[|trail| - 1];
      assert Shows(b, node, that.db.main);
      key := b.key[1..];
      HexPrefix.NibblesOfPacked(PathOf(b));
      if |b.rlp.items| == 2 {
        PairItem(node);
        value := b.rlp.items[1].bytes;
      } else {
        BranchItems(node, 16);
        value := b.rlp.items[16].bytes;
      }
    }

    method Pop()
      requires Valid() && trail != []
      modifies this
      ensures Valid() && trail == old(trail)[..|old(trail)| - 1] && nodes == old(nodes)[..|old(trail)| - 1]
    {
      TopOf(trail, nodes, that.db.main);
      trail, nodes := trail[..|trail| - 1], nodes[..|trail| - 1];
    }

    /** Replaces the top frame. */
    method Retop(f: Frame, ghost node: Trie)
      requires Valid() && trail != [] && Shows(f, node, that.db.main)
      modifies this
      ensures Valid() && trail == old(trail)[..|old(trail)| - 1] + [f] && nodes == old(nodes)[..|old(trail)| - 1] + [node]
      ensures Trailing(old(trail)[..|old(trail)| - 1], old(nodes)[..|old(trail)| - 1], that.db.main)
      ensures Left() == Rest(f, node) + RestOf(old(trail)[..|old(trail)| - 1], old(nodes)[..|old(trail)| - 1], that.db.main)
      ensures TrailWork(trail, nodes, that.db.main)
           == FrameWork(f, node) + TrailWork(old(trail)[..|old(trail)| - 1], old(nodes)[..|old(trail)| - 1], that.db.main)
    {
      TopOf(trail, nodes, that.db.main);
      trail, nodes := trail[..|trail| - 1], nodes[..|trail| - 1];
      Pushed(trail, nodes, f, node, that.db.main);
      trail, nodes := trail + [f], nodes + [node];
    }

    /** The frame for the node below slot `child` of the frame `b`. */
    method Descend(b: Frame, child: nat, ghost node: Trie) returns (f: Frame)
      requires Shows(b, node, that.db.main) && Coherent(that.db.main)
      requires node.Branch? && child < 16 && node.slots[child] != Empty
      ensures Shows(f, node.slots[child], that.db.main) && f.child == Entering && PathOf(f) == PathOf(b) + [child]
    {
      BranchItems(node, child);
      SlotCovers(that.db.main, node, child);
      StoredCoversBelow(that.db.main, node.slots[child]);
      var rlp := that.Deref(b.rlp.items[child], node.slots[child]);
      LongerKey(b, [child]);
      f := Frame(rlp, HexPrefix.Encode(PathOf(b) + [child], false), Entering);
    }

    /** Enters the occupied slot at which the top frame has just been placed. */
    method EnterSlot(k: Key)
      requires Valid() && trail != [] && nodes[|trail| - 1].Branch? && trail[|trail| - 1].child < 16
      requires var node := nodes[|trail| - 1]; Shaped(node) && node.slots[trail[|trail| - 1].child] != Empty
      modifies this
      ensures Valid() && Enters(k)
      ensures Trailing(old(trail), old(nodes), that.db.main)
      ensures var b, node := old(trail)[|old(trail)| - 1], old(nodes)[|old(trail)| - 1];
        && Goal(k) == Seek(node.slots[b.child], PathOf(b) + [b.child], k) + old(Left())
        && TrailWork(trail, nodes, that.db.main) == Work(node.slots[b.child]) + old(TrailWork(trail, nodes, that.db.main))
    {
      ghost var m := that.db.main;
      var b := trail[|trail| - 1];
      ghost var node := nodes[|trail| - 1];
      assert Shows(b, node, m);
      var f := Descend(b, b.child, node);
      GoalOfPushed(trail, nodes, f, node.slots[b.child], m, k);
      Pushed(trail, nodes, f, node.slots[b.child], m);
      trail, nodes := trail + [f], nodes + [node.slots[b.child]];
    }

    /** What the frames below the top one have left. */
    ghost function Later(): seq<Pair>
      requires Valid() && trail != []
      reads this, that.db
    {
      TopOf(trail, nodes, that.db.main);
      RestOf(trail[..|trail| - 1], nodes[..|trail| - 1], that.db.main)
    }

    ghost function LaterWork(): nat
      requires Valid() && trail != []
      reads this, that.db
    {
      TopOf(trail, nodes, that.db.main);
      TrailWork(trail[..|trail| - 1], nodes[..|trail| - 1], that.db.main)
    }

    /** Places the top frame at a position of its branch. */
    method PlaceAt(child: nat)
      requires Valid() && trail != [] && nodes[|trail| - 1].Branch? && child <= Exiting
      modifies this
      ensures Valid() && |trail| == |old(trail)| && nodes == old(nodes)
      ensures trail[|trail| - 1] == old(trail)[|old(trail)| - 1].(child := child)
      ensures Shows(trail[|trail| - 1], nodes[|trail| - 1], that.db.main)
      ensures Later() == old(Later()) && LaterWork() == old(LaterWork())
      ensures Left() == Rest(trail[|trail| - 1], nodes[|trail| - 1]) + Later()
      ensures TrailWork(trail, nodes, that.db.main) == FrameWork(trail[|trail| - 1], nodes[|trail| - 1]) + LaterWork()
    {
      hide RestOf, TrailWork, Canonical, Covers, HexPrefix.KeyOf, Work, Entries, SlotEntries, SlotWork;
      var n := |trail| - 1;
      assert Shows(trail[n], nodes[n], that.db.main);
      Retop(trail[n].(child := child), nodes[n]);
      assert nodes == old(nodes)[..n] + [old(nodes)[n]];
      assert trail[..n] == old(trail)[..n] && nodes[..n] == old(nodes)[..n];
    }

    /** Leaves the node of the top frame. */
    method Leave()
      requires Valid() && trail != []
      modifies this
      ensures Valid() && Left() == old(Later()) && TrailWork(trail, nodes, that.db.main) == old(LaterWork())
    {
      Pop();
    }

    /** At an occupied position, or past the last one: stops, enters the slot, or leaves the node. */
    method StopOrEnter(child: nat, sought: Key) returns (found: bool, k: Key)
      requires Valid() && trail != [] && nodes[|trail| - 1].Branch? && child <= Exiting
      requires Shaped(nodes[|trail| - 1]) && (sought != [] ==> child < 16)
      requires var node := nodes[|trail| - 1]; child != Exiting ==> InUse(node.slots, node.value, child)
      modifies this
      ensures Valid() && Enters(k) && (sought == [] ==> k == [])
      ensures var f, node := old(trail)[|old(trail)| - 1], old(nodes)[|old(trail)| - 1];
        && (found ==> AtEntry() && [Current()] + Left() == SeekPending(node, child, PathOf(f), sought) + old(Later()))
        && (!found ==> Goal(k) == SeekPending(node, child, PathOf(f), sought) + old(Later()))
        && (!found ==> TrailWork(trail, nodes, that.db.main) <= PendingWork(node, child) + old(LaterWork()))
    {
      hide RestOf, TrailWork, Canonical, Covers, HexPrefix.KeyOf, Entries;
      ghost var node, path, later := nodes[|trail| - 1], PathOf(trail[|trail| - 1]), Later();
      if child == Exiting {
        Leave();
        return false, [];
      }
      PlaceAt(child);
      if child == AtValue {
        FoundValue(node, path, later);
        return true, [];
      }
      EnterSlot(sought);
      SlotGoal(node, child, path, sought, later);
      return false, sought;
    }

    /** From a position of the top frame on, to the next occupied one. */
    method Scan(start: nat, sought: Key) returns (found: bool, k: Key)
      requires Valid() && trail != [] && nodes[|trail| - 1].Branch? && start <= Exiting
      requires Shaped(nodes[|trail| - 1]) && (sought != [] ==> start < 16)
      modifies this
      ensures Valid() && Enters(k) && (sought == [] ==> k == [])
      ensures var f, node := old(trail)[|old(trail)| - 1], old(nodes)[|old(trail)| - 1];
        && (found ==> AtEntry() && [Current()] + Left() == SeekPending(node, start, PathOf(f), sought) + old(Later()))
        && (!found ==> Goal(k) == SeekPending(node, start, PathOf(f), sought) + old(Later()))
        && (!found ==> TrailWork(trail, nodes, that.db.main) <= PendingWork(node, start) + old(LaterWork()))
    {
      var f := trail[|trail| - 1];
      ghost var node := nodes[|trail| - 1];
      assert f.rlp == NodeItem(node) by { assert Shows(f, node, that.db.main); }
      var child, still := FindOccupied(f.rlp, start, sought, node, PathOf(f));
      found, k := StopOrEnter(child, still);
    }

    // -------------------------------------------------------------- the two next functions

    /** Replaces the frame of the node being entered by that of the node below its extension. */
    method EnterExt(k: Key)
      requires Valid() && trail != [] && trail[|trail| - 1].child == Entering && nodes[|trail| - 1].Ext?
      modifies this
      ensures Valid() && Enters(k)
      ensures var b, node := old(trail)[|old(trail)| - 1], old(nodes)[|old(trail)| - 1];
        && Shaped(node)
        && Goal(k) == Seek(node.child, PathOf(b) + node.key, k) + old(Later())
        && TrailWork(trail, nodes, that.db.main) == Work(node.child) + old(LaterWork())
    {
      hide RestOf, TrailWork, Work, Seek, Entries, HexPrefix.Encode, HexPrefix.KeyOf;
      var b := trail[|trail| - 1];
      ghost var node := nodes[|trail| - 1];
      assert Shows(b, node, that.db.main);
      PairItem(node);
      LongerKey(b, node.key);
      ExtCovers(that.db.main, node);
      StoredCoversBelow(that.db.main, node.child);
      var rlp := that.Deref(b.rlp.items[1], node.child);
      var f := Frame(rlp, HexPrefix.Encode(PathOf(b) + KeyOf(b.rlp), false), Entering);
      Pop();
      Pushed(trail, nodes, f, node.child, that.db.main);
      GoalOfPushed(trail, nodes, f, node.child, that.db.main, k);
      trail, nodes := trail + [f], nodes + [node.child];
    }

    /** Stops at the leaf being entered. */
    method StopAtLeaf()
      requires Valid() && trail != [] && trail[|trail| - 1].child == Entering && nodes[|trail| - 1].Leaf?
      modifies this
      ensures Valid() && AtEntry() && Shaped(old(nodes)[|old(trail)| - 1])
      ensures [Current()] + Left() == Entries(old(nodes)[|old(trail)| - 1], PathOf(old(trail)[|old(trail)| - 1])) + old(Later())
    {
      hide RestOf, TrailWork, Work, Canonical, Covers, HexPrefix.Encode;
      var b := trail[|trail| - 1];
      ghost var node := nodes[|trail| - 1];
      assert Shows(b, node, that.db.main);
      PairItem(node);
      LongerKey(b, node.key);
      Retop(b.(key := HexPrefix.Encode(PathOf(b) + KeyOf(b.rlp), false), child := 0), node);
    }

    /** What is sought on entering a node is sought among that node's entries. */
    lemma GoalOnEntering(k: Key)
      requires Valid() && trail != [] && trail[|trail| - 1].child == Entering
      ensures var b, node := trail[|trail| - 1], nodes[|trail| - 1];
        && Shows(b, node, that.db.main) && Goal(k) == Seek(node, PathOf(b), k) + Later()
        && TrailWork(trail, nodes, that.db.main) == Work(node) + LaterWork()
    {
      var b, node := trail[|trail| - 1], nodes[|trail| - 1];
      TopOf(trail, nodes, that.db.main);
      SeekEmptyKey(node, PathOf(b));
    }

    /** On entering a pair that the search follows or takes whole: stops at a leaf, or goes below. */
    method EnterPair(sought: Key) returns (found: bool, k: Key)
      requires Valid() && trail != [] && trail[|trail| - 1].child == Entering
      requires var node := nodes[|trail| - 1]; (node.Leaf? || node.Ext?) && (sought == [] || node.key <= sought)
      modifies this
      ensures Valid() && Enters(k) && (sought == [] ==> k == [])
      ensures found ==> AtEntry() && [Current()] + Left() == old(Goal(sought))
      ensures !found ==> Goal(k) == old(Goal(sought))
      ensures !found ==> TrailWork(trail, nodes, that.db.main) < old(TrailWork(trail, nodes, that.db.main))
    {
      hide RestOf, TrailWork, Seek, Canonical, Covers, HexPrefix.KeyOf;
      GoalOnEntering(sought);
      PairItem(nodes[|trail| - 1]);
      if IsLeaf(trail[|trail| - 1].rlp) {
        found := TakeLeaf(sought);
        k := [];
      } else {
        found := false;
        k := FollowExt(sought);
      }
    }

    /** Stops at the leaf being entered, or leaves it if its key is not the one sought. */
    method TakeLeaf(sought: Key) returns (found: bool)
      requires Valid() && trail != [] && trail[|trail| - 1].child == Entering
      requires var node := nodes[|trail| - 1]; node.Leaf? && (sought == [] || node.key <= sought)
      modifies this
      ensures Valid() && (found ==> AtEntry() && [Current()] + Left() == old(Goal(sought)))
      ensures !found ==> Goal([]) == old(Goal(sought))
      ensures !found ==> TrailWork(trail, nodes, that.db.main) < old(TrailWork(trail, nodes, that.db.main))
    {
      hide RestOf, TrailWork, Seek, Canonical, Covers, HexPrefix.KeyOf;
      GoalOnEntering(sought);
      var b := trail[|trail| - 1];
      ghost var node, path := nodes[|trail| - 1], PathOf(b);
      PairItem(node);
      SeekEmptyKey(node, path);
      if sought != [] { SeekLeafFollowed(node, path, sought); }
      if sought != [] && sought != KeyOf(b.rlp) {
        Leave();
        return false;
      }
      StopAtLeaf();
      return true;
    }

    /** Goes on below the extension being entered, with what is left of the key sought. */
    method FollowExt(sought: Key) returns (k: Key)
      requires Valid() && trail != [] && trail[|trail| - 1].child == Entering
      requires var node := nodes[|trail| - 1]; node.Ext? && (sought == [] || node.key <= sought)
      modifies this
      ensures Valid() && Enters(k) && (sought == [] ==> k == []) && Goal(k) == old(Goal(sought))
      ensures TrailWork(trail, nodes, that.db.main) < old(TrailWork(trail, nodes, that.db.main))
    {
      hide RestOf, TrailWork, Seek, Canonical, Covers, HexPrefix.KeyOf;
      GoalOnEntering(sought);
      var b := trail[|trail| - 1];
      ghost var node, path := nodes[|trail| - 1], PathOf(b);
      PairItem(node);
      var key := KeyOf(b.rlp);
      SeekEmptyKey(node, path);
      if sought != [] { SeekExtFollowed(node, path, sought); } else { SeekEmptyKey(node.child, path + key); }
      k := if sought == [] then [] else sought[|key|..];
      EnterExt(k);
    }

    /** next(): moves to the entry after the current one, or off the end. */
    method Next()
      requires Valid()
      modifies this
      ensures Valid()
      ensures old(Left()) == [] ==> trail == []
      ensures old(Left()) != [] ==> AtEntry() && Current() == old(Left())[0] && Left() == old(Left())[1..]
    {
      while trail != []
        invariant Valid() && Left() == old(Left())
        decreases TrailWork(trail, nodes, that.db.main)
      {
        var found, k := Step([]);
        if found {
          assert old(Left()) == [Current()] + Left();
          return;
        }
      }
    }

    /** lower_bound: from the start, moves to the first entry whose key is not before `key`. */
    method Find(key: Key)
      requires Valid() && Enters(key)
      modifies this
      ensures Valid()
      ensures old(Goal(key)) == [] ==> trail == []
      ensures old(Goal(key)) != [] ==> AtEntry() && Current() == old(Goal(key))[0] && Left() == old(Goal(key))[1..]
    {
      var k := key;
      while trail != []
        invariant Valid() && Enters(k) && Goal(k) == old(Goal(key))
        decreases TrailWork(trail, nodes, that.db.main)
      {
        var found;
        found, k := Step(k);
        if found {
          assert old(Goal(key)) == [Current()] + Left();
          return;
        }
      }
    }

    /** One round of the outer loop. */
    method Step(sought: Key) returns (found: bool, k: Key)
      requires Valid() && trail != [] && Enters(sought)
      modifies this
      ensures Valid() && Enters(k) && (sought == [] ==> k == [])
      ensures found ==> AtEntry() && [Current()] + Left() == old(Goal(sought))
      ensures !found ==> Goal(k) == old(Goal(sought))
      ensures !found ==> TrailWork(trail, nodes, that.db.main) < old(TrailWork(trail, nodes, that.db.main))
    {
      var b := trail[|trail| - 1];
      if b.child == Entering {
        found, k := EnterNode(sought);
      } else {
        found, k := Resume();
      }
    }

    /** The part of the round for a node already entered. */
    method Resume() returns (found: bool, k: Key)
      requires Valid() && trail != [] && trail[|trail| - 1].child != Entering
      modifies this
      ensures Valid() && Enters(k) && k == []
      ensures found ==> AtEntry() && [Current()] + Left() == old(Left())
      ensures !found ==> Goal(k) == old(Left())
      ensures !found ==> TrailWork(trail, nodes, that.db.main) < old(TrailWork(trail, nodes, that.db.main))
    {
      hide RestOf, TrailWork, Canonical, Covers, HexPrefix.KeyOf, Entries, SlotEntries, SlotWork;
      TopOf(trail, nodes, that.db.main);
      var b := trail[|trail| - 1];
      ghost var node := nodes[|trail| - 1];
      if !(b.rlp.List? && |b.rlp.items| == 17) || b.child == Exiting {
        Leave();
        return false, [];
      }
      RestIsPending(b, node);
      SeekPendingEmptyKey(node, Following(b.child), PathOf(b));
      found, k := Scan(Following(b.child), []);
    }

    /** On entering a pair: goes on below it, skips it, or takes it whole. */
    method ComparePair(sought: Key) returns (found: bool, k: Key)
      requires Valid() && trail != [] && trail[|trail| - 1].child == Entering
      requires nodes[|trail| - 1].Leaf? || nodes[|trail| - 1].Ext?
      modifies this
      ensures Valid() && Enters(k) && (sought == [] ==> k == [])
      ensures found ==> AtEntry() && [Current()] + Left() == old(Goal(sought))
      ensures !found ==> Goal(k) == old(Goal(sought))
      ensures !found ==> TrailWork(trail, nodes, that.db.main) < old(TrailWork(trail, nodes, that.db.main))
    {
      GoalOnEntering(sought);
      var b := trail[|trail| - 1];
      ghost var node, path := nodes[|trail| - 1], PathOf(b);
      PairItem(node);
      var key := KeyOf(b.rlp);
      if key <= sought {
        found, k := EnterPair(sought);
        return;
      }
      SeekPairAside(node, path, sought);
      if !HexPrefix.Before(sought, key) {
        Leave();
        return false, [];
      }
      SeekEmptyKey(node, path);
      GoalOnEntering([]);
      found, k := EnterPair([]);
    }

    /** On entering a branch: starts at the slot the search goes to, or at the value. */
    method EnterBranch(sought: Key) returns (found: bool, k: Key)
      requires Valid() && trail != [] && trail[|trail| - 1].child == Entering && nodes[|trail| - 1].Branch?
      modifies this
      ensures Valid() && Enters(k) && (sought == [] ==> k == [])
      ensures found ==> AtEntry() && [Current()] + Left() == old(Goal(sought))
      ensures !found ==> Goal(k) == old(Goal(sought))
      ensures !found ==> TrailWork(trail, nodes, that.db.main) < old(TrailWork(trail, nodes, that.db.main))
    {
      hide RestOf, TrailWork, Seek, Canonical, Covers, HexPrefix.KeyOf, SlotWork;
      GoalOnEntering(sought);
      ghost var node, path := nodes[|trail| - 1], PathOf(trail[|trail| - 1]);
      if sought != [] {
        SeekBranch(node, path, sought);
        SlotWorkShrinks(node.slots, sought[0]);
        found, k := Scan(sought[0], sought[1..]);
      } else {
        SeekEmptyKey(node, path);
        found, k := Scan(AtValue, []);
      }
    }

    /** The part of the round for a node being entered. */
    method EnterNode(sought: Key) returns (found: bool, k: Key)
      requires Valid() && trail != [] && trail[|trail| - 1].child == Entering
      modifies this
      ensures Valid() && Enters(k) && (sought == [] ==> k == [])
      ensures found ==> AtEntry() && [Current()] + Left() == old(Goal(sought))
      ensures !found ==> Goal(k) == old(Goal(sought))
      ensures !found ==> TrailWork(trail, nodes, that.db.main) < old(TrailWork(trail, nodes, that.db.main))
    {
      GoalOnEntering(sought);
      var b := trail[|trail| - 1];
      if IsEmpty(b.rlp) {
        Leave();
        return false, [];
      }
      if |b.rlp.items| == 2 {
        found, k := ComparePair(sought);
      } else {
        found, k := EnterBranch(sought);
      }
    }
  }

  /** Pairs as the iterator gives them, with their keys spelled out in nibbles. */
  function InNibbles(s: seq<(Bytes, Bytes)>): (e: seq<Pair>)
    ensures |e| == |s| && forall i | 0 <= i < |s| :: e[i] == Pair(AsNibbles(s[i].0), s[i].1)
  {
    seq(|s|, i requires 0 <= i < |s| => Pair(AsNibbles(s[i].0), s[i].1))
  }

  ghost predicate WholeKeys(e: seq<Pair>) {
    forall i | 0 <= i < |e| :: |e[i].key| % 2 == 0
  }

  lemma EntriesAreWhole(m: Store)
    requires NonEmptyValues(m) && TrieDb.WholeBytes(m)
    ensures WholeKeys(Entries(TrieOf(m), []))
  {
    EntriesAreTheMap(m);
  }

  /** What is left to visit comes behind what has been visited. */
  ghost predicate Half(e: seq<Pair>, visited: seq<(Bytes, Bytes)>, todo: seq<Pair>) {
    InNibbles(visited) + todo == e && WholeKeys(todo)
  }

  lemma HalfEnds(e: seq<Pair>, visited: seq<(Bytes, Bytes)>, todo: seq<Pair>)
    ensures WholeKeys(e) ==> Half(e, [], e)
    ensures Half(e, visited, todo) && todo != [] ==> |todo[0].key| % 2 == 0
    ensures Half(e, visited, todo) && todo == [] ==> InNibbles(visited) == e
  {
    assert InNibbles([]) + e == e;
  }

  lemma HalfMoves(e: seq<Pair>, visited: seq<(Bytes, Bytes)>, todo: seq<Pair>, key: Bytes, value: Bytes)
    requires Half(e, visited, todo) && todo != [] && todo[0] == Pair(AsNibbles(key), value)
    ensures Half(e, visited + [(key, value)], todo[1..])
  {
    assert InNibbles(visited + [(key, value)]) == InNibbles(visited) + [todo[0]];
    assert [todo[0]] + todo[1..] == todo;
  }

  /** A whole pass: begin, then next until the end, visits the pairs of the map in order. */
  method VisitAll(trie: TrieDb.TrieDb) returns (visited: seq<(Bytes, Bytes)>)
    requires trie.Valid()
    ensures InNibbles(visited) == Entries(TrieOf(trie.contents), [])
  {
    hide Entries, TrieOf, RestOf, Trailing, AsNibbles, Half;
    EntriesAreWhole(trie.contents);
    ghost var all := Entries(TrieOf(trie.contents), []);
    var it := new Iterator(trie);
    visited := [];
    ghost var todo := it.Left();
    HalfEnds(all, visited, todo);
    it.Next();
    while it.trail != []
      invariant it.Valid() && fresh(it)
      invariant todo == [] ==> it.trail == []
      invariant todo != [] ==> it.AtEntry() && it.Current() == todo[0] && it.Left() == todo[1..]
      invariant Half(all, visited, todo)
      decreases |todo|
    {
      HalfEnds(all, visited, todo);
      var key, value := it.At();
      HalfMoves(all, visited, todo, key, value);
      visited := visited + [(key, value)];
      todo := it.Left();
      it.Next();
    }
    HalfEnds(all, visited, todo);
  }

  /** `found` is the pair with the least key of the map that is not before `k`, if there is one. */
  ghost predicate IsLowerBound(m: Store, k: Key, found: Option<Pair>) {
    match found
    case None => forall j :: j in m ==> HexPrefix.Before(j, k)
    case Some(e) =>
      && e.key in m && m[e.key] == e.value && !HexPrefix.Before(e.key, k)
      && forall j :: j in m && !HexPrefix.Before(j, k) ==> j == e.key || HexPrefix.Before(e.key, j)
  }

  lemma FirstNotBefore(m: Store, k: Key)
    requires NonEmptyValues(m)
    ensures var rest := DropBefore(Entries(TrieOf(m), []), k);
      IsLowerBound(m, k, if rest == [] then None else Some(rest[0]))
  {
    var e := Entries(TrieOf(m), []);
    EntriesAreTheMap(m);
    var n := DropBeforeIsLowerBound(e, k);
    forall j | j in m ensures exists i :: 0 <= i < |e| && e[i] == Pair(j, m[j]) {
      assert Pair(j, m[j]) in e;
    }
    if n < |e| {
      assert e[n..][0] == e[n];
      forall j | j in m && !HexPrefix.Before(j, k) ensures j == e[n].key || HexPrefix.Before(e[n].key, j) {
        var i :| 0 <= i < |e| && e[i] == Pair(j, m[j]);
        assert i >= n;
      }
    }
  }

  /** lower_bound(key): the least stored key not less than `key`, or the end. */
  method LowerBound(trie: TrieDb.TrieDb, key: Bytes) returns (found: Option<(Bytes, Bytes)>)
    requires trie.Valid()
    ensures IsLowerBound(trie.contents, AsNibbles(key),
                         if found.None? then None else Some(Pair(AsNibbles(found.value.0), found.value.1)))
  {
    FirstNotBefore(trie.contents, AsNibbles(key));
    var it := new Iterator(trie);
    it.GoalAtStart(AsNibbles(key));
    it.Find(AsNibbles(key));
    if it.trail == [] { return None; }
    assert it.Current().key in trie.contents;
    var k, v := it.At();
    return Some((k, v));
  }
}
