/**
  A removal that takes a value for a hash and goes on in the node of that name: deleteAt and
  deleteAtAux of libdevcore/TrieDB.h on any items of a store, up to the point at which the key has
  been found and nodes are given up.
 */
module Astray {
  import opened Bytes
  import opened Items

  /** What a lookup sees: the hash that 32 bytes stand for, and the hashes with an entry. */
  datatype Names = Names(named: Bytes -> Hash, seen: set<Hash>)

  /** No key, the key, or an assertion failure or exception on the way; nothing has changed by then. */
  datatype Sight = Missing | Found | Broken

  /**
    deleteAt. `left` are the hashes that have not been read from a value since the key last got
    shorter: one that comes up again comes up for ever, which ends no better than an exception. A
    pair whose key is no string is no node; it is taken to hold any key.
   */
  function Sought(x: Item, k: Key, names: Names, left: set<Hash>): Sight
    decreases |k|, left, x, 0
  {
    if IsEmpty(x) then Missing
    else if IsPair(x) then
      if !x.items[0].Data? then Found
      else if KeyOf(x) == k && x.items[0].bytes == [] then Broken
      else if KeyOf(x) == k && IsLeaf(x) then Found
      else if KeyOf(x) <= k then SoughtBelow(x.items[1], k[|KeyOf(x)|..], names, if KeyOf(x) == [] then left else names.seen)
      else Missing
    else if x.List? && |x.items| == 17 then
      if k != [] then SoughtBelow(x.items[k[0]], k[1..], names, names.seen)
      else if IsEmpty(x.items[16]) then Broken
      else Found
    else Broken
  }

  /** deleteAtAux: an entry is a node, or a hash of one, or is read as one. */
  function SoughtBelow(y: Item, k: Key, names: Names, left: set<Hash>): Sight
    decreases |k|, left, y, 1
  {
    match y
    case List(_) => Sought(y, k, names, left)
    case Digest(of) => if Sha3(of) in names.seen then Sought(of, k, names, left) else Broken
    case Data(b) =>
      if b == [] then Missing
      else if |b| > HashSize then Broken
      else
        var h := names.named(Padded(b));
        if h in names.seen && h in left then Sought(h.of, k, names, left - {h}) else Broken
  }
}
