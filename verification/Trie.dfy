/**
  The radix-16 trie of libdevcore/TrieDB.h as a value, with the editing steps its
  methods go through: splitting a pair (cleve), forking a pair into a branch (branch),
  folding a branch with one occupied slot into a pair (merge) and fusing two pairs (graft).
 */
module Trie {
  import opened Astray
  import opened Bytes
  import opened Items

  datatype Trie =
    | Empty
    | Leaf(key: Key, value: Bytes)
    | Ext(key: Key, child: Trie)
    | Branch(slots: seq<Trie>, value: Bytes)

  /** Sixteen empty slots. */
  function NoSlots(): (s: seq<Trie>)
    ensures |s| == 16 && forall i | 0 <= i < 16 :: s[i] == Empty
  {
    seq(16, _ => Empty)
  }

  /** The shape every operation relies on: sixteen slots, and no extension without a key. */
  ghost predicate Shaped(t: Trie) {
    match t
    case Empty => true
    case Leaf(_, _) => true
    case Ext(key, child) => key != [] && Shaped(child)
    case Branch(slots, _) => |slots| == 16 && forall i | 0 <= i < 16 :: Shaped(slots[i])
  }

  /** Slot `i` of a branch holds something; slot 16 is the value. */
  predicate InUse(slots: seq<Trie>, value: Bytes, i: int)
    requires |slots| == 16
  {
    if 0 <= i < 16 then slots[i] != Empty else i == 16 && value != []
  }

  /** At least two of the seventeen entries of a branch are occupied. */
  ghost predicate Forked(slots: seq<Trie>, value: Bytes)
    requires |slots| == 16
  {
    exists i, j :: i != j && InUse(slots, value, i) && InUse(slots, value, j)
  }

  /**
    The shape the trie is kept in: extensions have a key and point only to branches, branches
    have at least two occupied entries, and no stored value is empty.
   */
  ghost predicate Canonical(t: Trie) {
    match t
    case Empty => true
    case Leaf(_, value) => value != []
    case Ext(key, child) => key != [] && child.Branch? && Canonical(child)
    case Branch(slots, value) =>
      |slots| == 16 && (forall i | 0 <= i < 16 :: Canonical(slots[i])) && Forked(slots, value)
  }

  /** Everything strictly below the top node is canonical. */
  ghost predicate CanonicalBelow(t: Trie) {
    match t
    case Empty => true
    case Leaf(_, value) => value != []
    case Ext(key, child) => key != [] && Canonical(child)
    case Branch(slots, _) => |slots| == 16 && forall i | 0 <= i < 16 :: Canonical(slots[i])
  }

  lemma CanonicalIsShaped(t: Trie)
    requires CanonicalBelow(t) || Canonical(t)
    ensures Shaped(t)
  {
    match t
    case Empty =>
    case Leaf(_, _) =>
    case Ext(_, child) => CanonicalIsShaped(child);
    case Branch(slots, _) =>
      forall i | 0 <= i < 16 ensures Shaped(slots[i]) { CanonicalIsShaped(slots[i]); }
  }

  /** The value stored under `k`, or the empty string when there is none. */
  function Lookup(t: Trie, k: Key): Bytes
    requires Shaped(t)
  {
    match t
    case Empty => []
    case Leaf(key, value) => if key == k then value else []
    case Ext(key, child) => if key <= k then Lookup(child, k[|key|..]) else []
    case Branch(slots, value) => if k == [] then value else Lookup(slots[k[0]], k[1..])
  }

  // ---------------------------------------------------------------- insertion

  /** Splits a pair after `s` nibbles of its key into an extension over the shorter pair. */
  function Cleve(t: Trie, s: nat): Trie
    requires (t.Leaf? && 0 < s <= |t.key|) || (t.Ext? && 0 < s < |t.key|)
  {
    if t.Leaf? then Ext(t.key[..s], Leaf(t.key[s..], t.value))
    else Ext(t.key[..s], Ext(t.key[s..], t.child))
  }

  /** Turns a pair into a branch with exactly one occupied entry. */
  function Fork(t: Trie): Trie
    requires t.Leaf? || (t.Ext? && t.key != [])
  {
    if t.Leaf? then
      if t.key == [] then Branch(NoSlots(), t.value)
      else Branch(NoSlots()[t.key[0] := Leaf(t.key[1..], t.value)], [])
    else
      Branch(NoSlots()[t.key[0] := if |t.key| > 1 then Ext(t.key[1..], t.child) else t.child], [])
  }

  /** The key of a pair is followed downwards only if it is a prefix of the key sought. */
  predicate Follows(t: Trie, k: Key) {
    t.Ext? && t.key <= k
  }

  /** Orders the intermediate nodes a single insertion step passes through. */
  function Stage(t: Trie, k: Key): nat {
    if t.Branch? then 0 else if Follows(t, k) then 1 else 2
  }

  function Merge(t: Trie, k: Key, v: Bytes): Trie
    requires Shaped(t)
    decreases |k|, Stage(t, k)
  {
    match t
    case Empty => Leaf(k, v)
    case Branch(slots, value) =>
      if k == [] then Branch(slots, v)
      else Branch(slots[k[0] := Merge(slots[k[0]], k[1..], v)], value)
    case Leaf(key, _) =>
      if key == k then Leaf(key, v)
      else if Shared(k, key) > 0 then Merge(Cleve(t, Shared(k, key)), k, v)
      else Merge(ForkShaped(t), k, v)
    case Ext(key, child) =>
      if key <= k then Ext(key, Merge(child, k[|key|..], v))
      else if Shared(k, key) > 0 then Merge(Cleve(t, Shared(k, key)), k, v)
      else Merge(ForkShaped(t), k, v)
  }

  /** `Fork`, with its result known to be shaped. */
  function ForkShaped(t: Trie): (r: Trie)
    requires Shaped(t)
    requires t.Leaf? || t.Ext?
    ensures r == Fork(t) && r.Branch? && Shaped(r)
  {
    Fork(t)
  }

  lemma {:induction false} MergeShaped(t: Trie, k: Key, v: Bytes)
    requires Shaped(t)
    ensures Shaped(Merge(t, k, v))
    decreases |k|, Stage(t, k)
  {
    match t
    case Empty =>
    case Branch(slots, _) =>
      if k != [] { MergeShaped(slots[k[0]], k[1..], v); }
    case Leaf(key, _) =>
      if key == k {
      } else if Shared(k, key) > 0 {
        MergeShaped(Cleve(t, Shared(k, key)), k, v);
      } else {
        MergeShaped(ForkShaped(t), k, v);
      }
    case Ext(key, child) =>
      if key <= k {
        MergeShaped(child, k[|key|..], v);
      } else if Shared(k, key) > 0 {
        MergeShaped(Cleve(t, Shared(k, key)), k, v);
      } else {
        MergeShaped(ForkShaped(t), k, v);
      }
  }

  // ---------------------------------------------------------------- removal

  /**
    `Fault` stands for an assertion failure or an exception part-way through a removal. `Stray`
    stands for a value that is taken for the hash of a stored node, from which the removal takes
    something out.
   */
  datatype Removal = Fault | Stray | NotFound | Removed(t: Trie)

  /** The value of a leaf that a removal wants to go below is read as the hash of a node. */
  function ReadAsChild(v: Bytes, rest: Key, names: Names): Removal {
    match SoughtBelow(Data(v), rest, names, names.seen)
    case Missing => NotFound
    case Found => Stray
    case Broken => Fault
  }

  /** The value left alone in a branch is tried for the hash of a pair before it becomes a leaf. */
  function ReadAsPair(v: Bytes, names: Names): Removal {
    if |v| > HashSize then Fault
    else
      var h := names.named(Padded(v));
      if h in names.seen && IsPair(h.of) then Stray else Removed(Leaf([], v))
  }

  /** A pair over `child`, fused with it when the child is itself a pair. */
  function Attach(key: Key, child: Trie): Trie {
    match child
    case Leaf(k, value) => Leaf(key + k, value)
    case Ext(k, c) => Ext(key + k, c)
    case _ => Ext(key, child)
  }

  /** Entry `i` is occupied and, `except` apart, no other entry is. */
  ghost predicate SoleEntry(slots: seq<Trie>, value: Bytes, except: int, i: int)
    requires |slots| == 16
  {
    && i != except && InUse(slots, value, i)
    && forall j :: j != i && j != except ==> !InUse(slots, value, j)
  }

  /** The only occupied entry, or 255 when there is none or more than one. */
  ghost function UniqueInUse(slots: seq<Trie>, value: Bytes, except: int): (used: int)
    requires |slots| == 16
    ensures used == 255 || SoleEntry(slots, value, except, used)
    ensures used == 255 ==> forall i :: !SoleEntry(slots, value, except, i)
  {
    if exists i :: SoleEntry(slots, value, except, i)
    then var i :| SoleEntry(slots, value, except, i); i
    else 255
  }

  /** What becomes of a branch whose slots have just changed. */
  ghost function Settle(slots: seq<Trie>, value: Bytes, names: Names): Removal
    requires |slots| == 16
  {
    var used := UniqueInUse(slots, value, 255);
    if used == 255 then Removed(Branch(slots, value))
    else if used == 16 then ReadAsPair(value, names)
    else Removed(Attach([used], slots[used]))
  }

  /** What removing `k` makes of a trie, with a store that has entries under `names`. */
  ghost function Delete(t: Trie, k: Key, names: Names): Removal
    requires Shaped(t)
  {
    match t
    case Empty => NotFound
    case Leaf(key, v) => if key == k then Removed(Empty) else if key <= k then ReadAsChild(v, k[|key|..], names) else NotFound
    case Ext(key, child) =>
      if key <= k then
        var r := Delete(child, k[|key|..], names);
        if r.Removed? then Removed(Attach(key, r.t)) else r
      else NotFound
    case Branch(slots, value) =>
      if k != [] then
        var r := Delete(slots[k[0]], k[1..], names);
        if r.Removed? then Settle(slots[k[0] := r.t], value, names) else r
      else if value != [] then
        var used := UniqueInUse(slots, value, 16);
        Removed(if used == 255 then Branch(slots, []) else Attach([used], slots[used]))
      else Fault
  }
}
