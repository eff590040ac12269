/**
  Stored nodes as RLP items. The hash function stays symbolic: the hash of an item is a value that
  remembers the item, so distinct items have distinct hashes and no hash is ever computed.
 */
module Items {
  import opened Bytes
  import BigEndian
  import HexPrefix

  /** An RLP item in which the 32-byte strings that are node hashes are told apart from data. */
  datatype Item = Data(bytes: Bytes) | List(items: seq<Item>) | Digest(of: Item)

  datatype Hash = Sha3(of: Item)

  /** A hash has 32 bytes; a longer value cannot be read as one, a shorter one is padded in front. */
  const HashSize := 32

  function Padded(v: Bytes): (b: Bytes)
    requires |v| <= HashSize
    ensures |b| == HashSize
  {
    seq(HashSize - |v|, _ => 0) + v
  }

  lemma {:induction false} PaddedStandsFor(n: nat, v: Bytes)
    ensures BigEndian.Value(seq(n, _ => 0) + v) == BigEndian.Value(v)
  {
    var b := seq(n, _ => 0) + v;
    if v != [] {
      assert b[..|b| - 1] == seq(n, _ => 0) + v[..|v| - 1];
      PaddedStandsFor(n, v[..|v| - 1]);
    } else if n > 0 {
      assert b[..|b| - 1] == seq(n - 1, _ => 0) + v;
      PaddedStandsFor(n - 1, v);
    }
  }

  /** The hash that a short value is read as is the number that the value denotes. */
  lemma PaddedIsTheNumber(v: Bytes)
    requires |v| <= 32
    ensures |Padded(v)| == 32 && BigEndian.Value(Padded(v)) == BigEndian.Value(v)
  {
    PaddedStandsFor(HashSize - |v|, v);
  }

  /** RLP::isEmpty. */
  predicate IsEmpty(x: Item) {
    x == Data([]) || x == List([])
  }

  /** RLPNull, the item an empty trie is stored as. */
  const Null := Data([])

  predicate IsPair(x: Item) {
    x.List? && |x.items| == 2
  }

  /** dev::keyOf on a pair. */
  function KeyOf(x: Item): Key
    requires IsPair(x) && x.items[0].Data?
  {
    HexPrefix.KeyOf(x.items[0].bytes).Nibbles()
  }

  /** dev::isLeaf on a pair. */
  predicate IsLeaf(x: Item)
    requires IsPair(x) && x.items[0].Data? && x.items[0].bytes != []
  {
    HexPrefix.IsLeafByte(x.items[0].bytes)
  }
}
