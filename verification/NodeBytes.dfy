/**
  The bytes of stored nodes, for any 32-byte hash function: equal items are equal bytes, the
  strict reader gives them back, and the size that decides about inlining is their length.
 */
module NodeBytes {
  import opened Bytes
  import opened Items
  import opened Nodes
  import Rlp
  import RlpFacts
  import RlpReader
  import HexPrefix
  import opened Trie

  ghost predicate GivesHashes(sha: Bytes -> Bytes) {
    forall b :: |sha(b)| == HashSize
  }

  /** Every size inside the item, hashed parts included, is one the RLP reader accepts. */
  predicate Fits(x: Item) {
    match x
    case Data(b) => |b| < Rlp.LengthLimit
    case List(items) => SizeAll(items) < Rlp.LengthLimit && FitsAll(items)
    case Digest(of) => Fits(of)
  }

  predicate FitsAll(items: seq<Item>) {
    items == [] || (Fits(items[0]) && FitsAll(items[1..]))
  }

  /** The RLP item with each hash in its place. */
  ghost function Concrete(sha: Bytes -> Bytes, x: Item): (r: Rlp.Item)
    requires GivesHashes(sha) && Fits(x)
    ensures Rlp.Fits(r) && Rlp.Size(r) == ItemSize(x)
  {
    match x
    case Data(b) => Rlp.Data(b)
    case List(items) => Rlp.List(ConcreteAll(sha, items))
    case Digest(of) => Rlp.Data(sha(Rlp.Encode(Concrete(sha, of))))
  }

  ghost function ConcreteAll(sha: Bytes -> Bytes, items: seq<Item>): (r: seq<Rlp.Item>)
    requires GivesHashes(sha) && FitsAll(items)
    ensures Rlp.FitsAll(r) && Rlp.SizeAll(r) == SizeAll(items) && |r| == |items|
  {
    if items == [] then [] else [Concrete(sha, items[0])] + ConcreteAll(sha, items[1..])
  }

  /** The stored bytes of a node. */
  ghost function NodeBytes(sha: Bytes -> Bytes, x: Item): (b: Bytes)
    requires GivesHashes(sha) && Fits(x)
    ensures |b| == ItemSize(x)
  {
    Rlp.Encode(Concrete(sha, x))
  }

  lemma {:induction false} ConcreteAt(sha: Bytes -> Bytes, items: seq<Item>, i: nat)
    requires GivesHashes(sha) && FitsAll(items) && i < |items|
    ensures Fits(items[i]) && ConcreteAll(sha, items)[i] == Concrete(sha, items[i])
  {
    if i > 0 { ConcreteAt(sha, items[1..], i - 1); }
  }

  /**
    Reading stored bytes: they are accepted strictly, show the kind and the emptiness the model
    tests, and subscripting a node's bytes gives the bytes of that child entry.
   */
  lemma BytesReadAsItems(sha: Bytes -> Bytes, x: Item, i: nat)
    requires GivesHashes(sha) && Fits(x)
    ensures var b := NodeBytes(sha, x);
      && Rlp.Decode(b) == Rlp.Ok(Concrete(sha, x))
      && (Rlp.IsList(b) <==> x.List?) && (Rlp.IsEmpty(b) <==> IsEmpty(x))
      && (x.Data? ==> Rlp.Payload(b) == Rlp.Ok(x.bytes))
      && (x.List? && i < |x.items| && ItemSize(x) < 0xffff_ffff_ffff_ffff ==>
            Fits(x.items[i]) && (i < 0xffff_ffff_ffff_ffff ==> RlpReader.Access(b, RlpReader.Unused, i).1 == Rlp.Ok(NodeBytes(sha, x.items[i]))))
  {
    var c := Concrete(sha, x);
    RlpFacts.DecodeEncode(c);
    RlpFacts.PayloadReadsBack(c);
    RlpFacts.EmptyReadsBack(c);
    if x.List? && i < |x.items| {
      ConcreteAt(sha, x.items, i);
      if i < 0xffff_ffff_ffff_ffff && ItemSize(x) < 0xffff_ffff_ffff_ffff {
        RlpReader.ReadersAgree(c.items, [], i);
      }
    }
  }

  /** What the nodes of a trie are as RLP: a string, a pair with a flagged key, or seventeen entries. */
  lemma NodeForms(sha: Bytes -> Bytes, t: Trie)
    requires GivesHashes(sha) && Shaped(t) && Fits(NodeItem(t))
    ensures var c := Concrete(sha, NodeItem(t));
      match t
      case Empty => c == Rlp.Data([]) && NodeBytes(sha, NodeItem(t)) == [0x80]
      case Leaf(key, value) => c == Rlp.List([Rlp.Data(HexPrefix.Encode(key, true)), Rlp.Data(value)])
      case Ext(key, child) =>
        && Fits(Ref(child))
        && c == Rlp.List([Rlp.Data(HexPrefix.Encode(key, false)), Concrete(sha, Ref(child))])
      case Branch(slots, value) =>
        && c.List? && |c.items| == 17 && c.items[16] == Rlp.Data(value)
        && forall i | 0 <= i < 16 :: Fits(Ref(slots[i])) && c.items[i] == Concrete(sha, Ref(slots[i]))
  {
    var x := NodeItem(t);
    match t
    case Empty => RlpFacts.EncodingForm(Rlp.Data([]));
    case Leaf(_, _) => TwoItems(sha, x.items);
    case Ext(_, _) => TwoItems(sha, x.items);
    case Branch(slots, _) =>
      forall i | 0 <= i < 17 ensures Fits(x.items[i]) && ConcreteAll(sha, x.items)[i] == Concrete(sha, x.items[i]) {
        ConcreteAt(sha, x.items, i);
      }
      forall i | 0 <= i < 16 ensures x.items[i] == Ref(slots[i]) {}
  }

  lemma TwoItems(sha: Bytes -> Bytes, items: seq<Item>)
    requires GivesHashes(sha) && FitsAll(items) && |items| == 2
    ensures Fits(items[0]) && Fits(items[1]) && ConcreteAll(sha, items) == [Concrete(sha, items[0]), Concrete(sha, items[1])]
  {
    ConcreteAt(sha, items, 0);
    ConcreteAt(sha, items, 1);
  }

  /** A child stands in its parent as it is below 32 bytes, and else as the hash of its bytes. */
  lemma ChildForm(sha: Bytes -> Bytes, t: Trie)
    requires GivesHashes(sha) && Shaped(t) && Fits(NodeItem(t))
    ensures Fits(Ref(t))
    ensures var b := NodeBytes(sha, NodeItem(t));
      Concrete(sha, Ref(t)) == if |b| < 32 then Concrete(sha, NodeItem(t)) else Rlp.Data(sha(b))
  {
  }
}
