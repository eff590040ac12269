# Verified model of the miner's data structures, codecs and protocols

This project models the parts of the miner whose correctness is hard to see, and proves what they
promise. Every entity that the program updates in place is a class; values are datatypes; loops
carry the invariants that tie them to a specification, and the specifications are related to each
other by lemmas that hold for all inputs, all runs or all schedules.

* **Merkle Patricia trie.** `Trie`, `TrieFacts`, `TrieRemoval`, `Astray`, `TrieStray` and `TrieHistory` hold the trie as a
  value: insertion is map update, removal is map deletion, the shape stays canonical, canonical
  tries are unique. `Items`, `Nodes`, `MemoryDb`, `Ledger` and `TrieDb` are the reference-counted store and
  the class that rewrites nodes in it; its invariant says that every hash is counted exactly as
  often as the unfolded trie refers to it. `TrieHash` is the one-pass construction, and `TrieRuns`
  proves that runs of insertions and removals end at the root the one-pass construction gives.
  `TrieOrder`, `TrieSeek` and `TrieIterator` cover ordered iteration and lower bounds.
  (Yellow Paper, Appendix D; hex-prefix keys in `HexPrefix`, Appendix C.)
* **RLP.** `Rlp`, `RlpFacts`, `RlpReader` and `RlpStream`: the recursive encoding, the strict lazy
  reader with its cached position, and the writer that inserts list headers afterwards
  (Yellow Paper, Appendix B).
* **secp256k1.** `Group`, `Scalar`, `Wnaf`, `Ecmult`, `EcmultGen`, `Curve`, `Ecdsa` and `Compact`:
  windowed recoding, double multiplication, the blinded table for the generator, signing,
  verifying, recovering (SEC 1 version 2; SEC 2 section 2.7.1).
* **RangeMask.** A set of numbers as a map of intervals that do not touch.
* **Worker.** One thread, any number of callers, a lock and an atomic state, over all schedules.
* **INI files** (`IniText`, `Ini`, `IniLines`, `IniWriter`, `IniRoundTrip`) and **division constants**
  (`DivMagic`).

How things are represented:

* The hash function of the trie is symbolic: the hash of a node is a value that remembers the node,
  so distinct nodes have distinct hashes. `NodeBytes` connects this with bytes, for every function
  into 32 bytes. Where the program takes a stored value for a hash, some function says which hash
  any 32 bytes stand for; the statements hold for every such function.
* The curve is any commutative group in which every element has the group order, with a coordinate,
  a parity, a lifting function and inverses modulo the order that obey the laws stated in `Curve`.
  Order and field size are the real ones.
* Widths are written out where they matter: 32 bits in `RangeMask` and `DivMagic`, 256 bits in
  `Wnaf` and `EcmultGen`, 64-bit lengths in `Rlp`.
* A `Result` or a boolean stands for an exception or an error return. Randomness, nonces and hash
  outputs are parameters.

Where the code does something else than its documentation says, the model follows the code:

* `RangeMask::lowest` (libdevcore/RangeMask.h:66-72) is documented to return the smallest elements,
  but adds in 32 bits; `Lowest` proves exactly when the result is right. `next` wraps around at the
  largest number (line 185). `operator-=` is the set difference only if the operand covers what its
  ground range adds, and subtracting a mask from itself changes nothing. Each has an input.
* `GenericTrieDB::remove` (libdevcore/TrieDB.h:917-1049) goes wrong for some maps with a key that is
  a proper prefix of another, the key to remove counted in. It throws, or takes the value of the
  shorter key for the hash of a node: if a pair has that hash, `graft` puts the pair in the place of
  the value; and if the key is not stored, the removal goes on in the node of that hash and takes
  something out of it, changes nothing, or throws. `RemovalFails` and `RemovalStrays` in
  `TrieRemoval` say when, of the map, the key and the hashes in the store, `Remove` proves that it is
  exactly then, and `TrieRemoval` and `TrieStray` have inputs. If no key is a proper prefix of another,
  as among keys of one length, neither ever happens.
* `RLP::operator[]` (libdevcore/RLP.cpp:76-91) leaves its cache unusable when it throws, and a pass
  with the iterator (lines 48-74) over a list that bytes follow never meets `end()`.
* `write_ini` (ethminer/ini_parser_ex.hpp:241-246) prints an empty section as a key.
* `DivMagic` (libethash-cl/ethash_cl_miner.cpp:467-497) gives wrong constants for powers of two.

`dafny verify dfyconfig.toml` verifies everything.

## Model

| member | source | states |
|---|---|---|
| Bytes.AsNibblesInjective | libdevcore/CommonData.cpp:114-124 | distinct byte strings have distinct nibbles |
| Bytes.Shared | libdevcore/TrieCommon.h:37-47 | the common prefix of two nibble keys: they agree up to it and, where both go on, not beyond |
| BigEndian.BytesRequired | libdevcore/CommonData.h:201-209 | the length of the shortest big-endian form; zero for zero |
| BigEndian.ShortestLength | libdevcore/CommonData.h:201-209 | a number takes at most k bytes exactly when it is below 256^k |
| BigEndian.ToBigEndian | libdevcore/CommonData.h:104-113 | fills the buffer with the fixed-size form, from the last byte backwards, in place |
| BigEndian.FixedHoldsValue | libdevcore/CommonData.h:99-113 | a buffer large enough holds the value, a smaller one the value modulo its range |
| BigEndian.FromBigEndian | libdevcore/CommonData.h:118-125 | reads the value that the bytes denote |
| BigEndian.ShortestOfValue | libdevcore/CommonData.h:118-125 | bytes without a leading zero are the shortest form of what they denote (inverse of ValueOfShortest) |
| BigEndian.ValueOfShortest | libdevcore/CommonData.h:118-125 | the shortest form reads back to the number |
| HexPrefix.NibbleSlice.SharedWith | libdevcore/TrieCommon.h:37-67 | the loop counts exactly the nibbles two views share at their beginning |
| HexPrefix.NibbleSlice.Contains | libdevcore/TrieCommon.h:64-65 | true exactly for prefixes of the view |
| HexPrefix.NibbleSlice.Equals | libdevcore/TrieCommon.h:85-85 | true exactly when both views show the same nibbles, whatever their offsets |
| HexPrefix.NibbleSlice.IsEarlierThan | libdevcore/TrieCommon.h:73-84 | true exactly when the key comes before every key that starts with the prefix |
| HexPrefix.NibbleSlice.Mid | libdevcore/TrieCommon.h:61-61 | shows the nibbles from an index on |
| HexPrefix.DecodeEncode | libdevcore/TrieCommon.h:96-111 | keyOf and the 0x20 flag give back exactly the nibbles and the leaf bit of any encoding |
| HexPrefix.EncodeIsInjective | libdevcore/TrieCommon.cpp:28-41 | no two pairs of nibbles and leaf bit have the same encoding |
| HexPrefix.EncodedBytes | libdevcore/TrieCommon.cpp:43-58 | every byte of the encoding: 0x20 for a leaf, 0x10 and the first nibble for an odd count, then two nibbles to the byte (Yellow Paper, Appendix C) |
| HexPrefix.FlagsOfByte | libdevcore/TrieCommon.h:96-111 | which bits of any first byte isLeaf and keyOf go by |
| HexPrefix.EncodeVector | libdevcore/TrieCommon.cpp:43-58 | the encoder over a vector gives the hex-prefix form of the part asked for, negative ends counted from the back |
| HexPrefix.EncodeSlice | libdevcore/TrieCommon.cpp:60-79 | the encoder over packed bytes gives the hex-prefix form of the nibbles between its bounds behind the offset |
| HexPrefix.EncodePair | libdevcore/TrieCommon.cpp:81-111 | the two-slice encoder gives the hex-prefix form of the concatenation |
| HexPrefix.EncodersAgree | libdevcore/TrieCommon.cpp:43-111 | all three encoders give the same bytes for the same nibbles, whether a vector, a part of a view or two views in a row hold them, at any offsets, with the flag byte the notation asks for, and the view over the result shows them again |
| HexPrefix.EndsAreCounted | libdevcore/TrieCommon.cpp:46-63 | a negative end counts from the back, so that -1 is the end itself: ends that differ by the size plus one stand for the same place, and no others do |
| RlpFacts.HeaderReadsBack | libdevcore/RLP.cpp:154-210 | a written header is read as the length and the offset it announces, whatever follows it |
| RlpFacts.EncodingForm | libdevcore/RLP.cpp:246-335 | the encoding byte by byte, with the numbers of Appendix B of the Yellow Paper |
| RlpFacts.HeaderForm | libdevcore/RLP.cpp:246-266 | one header byte up to 55, else a byte that counts the bytes of the length, and these, as few as it takes |
| RlpFacts.LengthsRead | libdevcore/RLP.cpp:154-210 | every length is read up to the largest 64-bit size less 0x100, whatever follows it, and refused from there on |
| RlpFacts.DecodeEncode | libdevcore/RLP.cpp:29-46 | reading the encoding of any nested item strictly gives the item back |
| RlpFacts.EncodeDecode | libdevcore/RLP.cpp:29-210 | bytes accepted by strict reading at every level are the encoding of what is read |
| RlpFacts.StrictReadingIsCanonical | libdevcore/RLP.cpp:29-210 | strict reading accepts d as x if and only if d is the encoding of x: one form per item |
| RlpFacts.EmptyReadsBack | libdevcore/RLP.h:104-104 | isEmpty holds exactly for the encodings of the empty string and the empty list |
| RlpReader.View.At | libdevcore/RLP.cpp:76-91 | operator[]: the answer and the new cache are those of the model of the cached position, the exceptions included |
| RlpReader.View.StepTo | libdevcore/RLP.cpp:84-89 | the forward walk of operator[] leaves the cache where the model says, also when an item is too short |
| RlpReader.View.ReadLength | libdevcore/RLP.cpp:154-210 | length(): the announced length or an exception, the byte loop included |
| RlpReader.View.Items | libdevcore/RLP.cpp:212-223 | items(): as many as the payload splits into, an exception when it does not split |
| RlpReader.View.ToList | libdevcore/RLP.cpp:93-101 | where the item ends with its bytes, the pass from begin() to end() gives exactly the parts the payload splits into, and an exception when it does not split |
| RlpReader.EndIsMetIff | libdevcore/RLP.cpp:48-74 | a pass over a list that splits ever meets end() if and only if the item ends with its bytes; otherwise the increments stand still short of it |
| RlpReader.ByteBehindExample | libdevcore/RLP.cpp:48-74 | over the list c1 01 with the byte 02 behind it the pass never meets end() |
| RlpReader.SplitEncoded | libdevcore/RLP.cpp:212-223 | the payload of an encoded list splits into the encodings of its items |
| RlpReader.OrderFreeIff | libdevcore/RLP.cpp:76-91 | indexing gives the same answers after any sequence of accesses if and only if the payload splits to its end or its first item cannot be read |
| RlpReader.NothingIsRead | libdevcore/RLP.cpp:76-91 | where the payload cannot be had, or not its first item, every subscript throws and none changes the cache |
| RlpReader.LargestIsNull | libdevcore/RLP.cpp:76-91 | the largest subscript meets the index of an unused cache and gives the null item, whatever the bytes |
| RlpReader.ThrowSpoilsLastItem | libdevcore/RLP.cpp:84-90 | after an access that threw, an access that succeeded on a fresh reader throws: the cache points at the bytes that were too short |
| RlpReader.ShortItemExample | libdevcore/RLP.cpp:84-90 | on the bytes c2 01 82 subscript 0 gives an item on a fresh reader and throws after subscript 1 has thrown |
| RlpReader.ReadersAgree | libdevcore/RLP.cpp:76-91 | after any accesses a subscript of an encoded list gives the encoding of that item, and the empty item past the end |
| RlpStream.FeedIsEncode | libdevcore/RLP.cpp:225-344 | feeding any nesting item by item, headers inserted afterwards, has the effect of appending the recursive encoding as one item |
| RlpStream.FeedAllFills | libdevcore/RLP.cpp:232-269 | feeding an open list the items it wants closes it around its bytes, and with it every list this completes |
| RlpStream.Stream.PushInt | libdevcore/RLP.h:410-416 | appends the shortest big-endian form, filled in from the back |
| RlpStream.Stream.PushCount | libdevcore/RLP.cpp:337-344 | appends the header for a long payload |
| RlpStream.Stream.InsertHeader | libdevcore/RLP.cpp:246-266 | shifts the bytes written since the list began and puts exactly its header in front of them; fails exactly for a length no header can hold |
| RlpStream.Stream.InsertLongHeader | libdevcore/RLP.cpp:257-265 | the same for a length that needs bytes of its own |
| RlpStream.Stream.FillLength | libdevcore/RLP.cpp:260-262 | writes the length bytes backwards and touches nothing else |
| RlpStream.Stream.NoteAppended | libdevcore/RLP.cpp:232-269 | counts items in and closes lists outwards exactly as the model does, exceptions included |
| RlpStream.Stream.AppendRaw | libdevcore/RLP.cpp:225-230 | takes in bytes that stand for a number of items |
| RlpStream.Stream.Append | libdevcore/RLP.cpp:291-310 | appends a string, in compact form without its leading zeros |
| RlpStream.Stream.AppendInt | libdevcore/RLP.cpp:312-335 | appends a number as the string of its shortest big-endian form |
| RlpStream.Stream.AppendList | libdevcore/RLP.cpp:271-279 | opens a list; an empty one is complete at once |
| RlpStream.Stream.AppendItem | libdevcore/RLP.h:371-375 | appends any nested item the way callers do |
| RlpStream.Stream.Out | libdevcore/RLP.h:394-394 | gives the bytes, or an exception while a list is open |
| RlpStream.Write | libdevcore/RLP.cpp:225-344 | any nested item written to a fresh stream leaves no list open and exactly the recursive encoding in the buffer |
| TrieFacts.MergeIsMapUpdate | libdevcore/TrieDB.h:778-915 | looking up after an insertion is map update, for every pair of keys |
| TrieFacts.MergeKeepsCanonical | libdevcore/TrieDB.h:815-915 | insertion keeps the canonical shape: no empty extension key, extensions only before branches, two entries in every branch |
| TrieFacts.CleveKeepsLookups | libdevcore/TrieDB.h:1123-1142 | splitting a pair changes no lookup |
| TrieFacts.ForkKeepsLookups | libdevcore/TrieDB.h:1190-1222 | turning a pair into a branch changes no lookup |
| TrieFacts.CanonicalIsUnique | libdevcore/TrieDB.h:182-201 | two canonical tries with the same lookups are the same trie |
| TrieFacts.TrieExists | libdevcore/TrieHash.cpp:159-170 | every map of non-empty values has a canonical trie |
| TrieFacts.TrieOfIsUnique | libdevcore/TrieHash.cpp:159-170 | a canonical trie that represents a map is the trie of that map |
| TrieFacts.InsertIntoTrieOf | libdevcore/TrieDB.h:760-776 | inserting into the trie of a map gives the trie of the updated map |
| TrieRemoval.DeleteIsMapDeletion | libdevcore/TrieDB.h:944-1069 | a removal that gets to its end deletes the key and nothing else and keeps the canonical shape; one that reports not found found an absent key |
| TrieRemoval.DeleteFaults | libdevcore/TrieDB.h:933-1069 | a removal throws if and only if stored keys part right behind a key that is not stored, or the value of a stored prefix that nothing else extends is too long for a hash, or the key is not stored and that value is the hash of nothing or of a node in which removing the rest of the key throws; it goes astray if and only if such a value is the hash of a stored pair, or, the key not being stored, of a node that holds the rest of the key |
| TrieRemoval.ReadsAreMisreads | libdevcore/TrieDB.h:933-1047 | which values are read as hashes can be told from the map alone |
| TrieRemoval.PartsIsKeysPart | libdevcore/TrieDB.h:1016-1024 | and so can whether keys part behind the key sought |
| TrieRemoval.PrefixFreeNeverFails | libdevcore/TrieDB.h:316-330 | with keys of which none is a proper prefix of another no removal throws or goes astray, whatever the store holds |
| TrieRemoval.PartingKeysExample | libdevcore/TrieDB.h:1016-1024 | removing the empty key throws where two keys part at once |
| TrieRemoval.StopsShortExample | libdevcore/TrieDB.h:971-986 | removing a longer key from a trie of the empty key alone throws if its value is the hash of nothing |
| TrieRemoval.LongValueExample | libdevcore/TrieDB.h:933-937 | removing the one key that extends another throws if the value of the other has more than 32 bytes |
| TrieRemoval.DeleteFromTrieOf | libdevcore/TrieDB.h:917-931 | removing from the trie of a map throws or goes astray exactly under the conditions on map and store, and otherwise gives the trie of the smaller map |
| TrieStray.GraftOfStray | libdevcore/TrieDB.h:1144-1169 | graft on a pair found under a value puts that pair in the place of the value |
| TrieStray.StrayIsWrong | libdevcore/TrieDB.h:1144-1169 | what is then stored differs in some lookup from what should be |
| TrieStray.StrayExample | libdevcore/TrieDB.h:933-937 | in any store that holds the trie of 11 := the hash of the leaf for 55, 1122 := w and 55 := x, removing 1122 goes astray: 11 is replaced by a key that ends in the nibble 5, and the leaf for 55 loses a reference that the smaller trie needs |
| TrieStray.NamedTrieAnswers | libdevcore/TrieDB.h:944-1069 | in a node a value names, which with all below it is that of a trie, a removal finds the keys of that trie, and fares for other keys as it does there |
| TrieStray.NamedTrieDecides | libdevcore/TrieDB.h:971-986 | for a key not stored that extends a lone stored one, the trie named by its value decides: the removal takes something out if it stores the rest of the key, and else throws or changes nothing as there |
| TrieStray.LeafIsOverwritten | libdevcore/TrieDB.h:978-986 | what is then written for the leaf differs from it, unless the trie named keeps nothing but the leaf of that very value |
| TrieStray.HarmlessExample | libdevcore/TrieDB.h:971-991 | with 11 := the hash of the leaf for 55 and 55 := x, removing 1122 looks at that leaf and changes nothing |
| TrieStray.HarmfulExample | libdevcore/TrieDB.h:971-986 | with 11 := the hash of the leaf for 5522, 5522 := x and 5622 := y, removing 1122 takes that leaf out: 11 is left with an empty value, and the leaf for 5522 with a reference less than the trie needs |
| TrieHistory.EditedIsTrieOf | libdevcore/TrieDB.h:760-1222 | a run of insertions and removals gets to its end if and only if every removal in it does, and then leads to the trie of the map it leaves |
| TrieHistory.HistoryDoesNotMatter | libdevcore/TrieDB.h:760-1222 | two runs that get to their end and leave the same map leave the same trie |
| TrieHistory.PrefixFreeRunsSmoothly | libdevcore/TrieDB.h:316-330 | runs over keys of which none is a proper prefix of another get to their end |
| MemoryDb.MemoryDb.Lookup | libdevcore/MemoryDB.cpp:58-72 | the value stored under a hash; while references are enforced only one that is referenced |
| MemoryDb.MemoryDb.Exists | libdevcore/MemoryDB.cpp:74-83 | true exactly for hashes with an entry; while references are enforced only for referenced ones |
| MemoryDb.MemoryDb.Insert | libdevcore/MemoryDB.cpp:85-101 | one more reference, the value replaced, nothing else changed |
| MemoryDb.MemoryDb.Kill | libdevcore/MemoryDB.cpp:103-130 | one reference less if there is any; the entry stays, with its value |
| MemoryDb.MemoryDb.Purge | libdevcore/MemoryDB.cpp:159-169 | exactly the entries without references are gone |
| MemoryDb.MemoryDb.Keys | libdevcore/MemoryDB.cpp:171-181 | the hashes with references |
| Nodes.BranchItems | libdevcore/TrieDB.h:803-812 | the items of a stored branch are the references of its slots and its value |
| Nodes.PairItem | libdevcore/TrieCommon.h:96-116 | key and leaf flag read from a stored pair are those of the node |
| Nodes.CanonicalIsNotLone | libdevcore/TrieDB.h:1071-1090 | no canonical node is a branch with fewer than two entries, which is why giving up a branch that was never stored hits nothing |
| Ledger.Compose | libdevcore/TrieDB.h:292-302 | exchanges of references add up: what one rewriting step gives up and takes is kept exactly through the next |
| Ledger.KillDelta | libdevcore/TrieDB.h:297-302 | giving up a counted node leaves the references its children hold |
| Ledger.InsertDelta | libdevcore/TrieDB.h:292-294 | storing a node takes one reference |
| Ledger.SlotDelta | libdevcore/TrieDB.h:883-891 | an exchange in one slot is an exchange for the branch |
| TrieDb.TrieDb.KillNode | libdevcore/TrieDB.h:297-302 | gives up the reference to a node of 32 bytes or more, and only that; a branch that was never stored is counted nowhere |
| TrieDb.TrieDb.StreamNode | libdevcore/TrieDB.h:1114-1121 | a node becomes the reference its parent holds, stored and counted once if it is large |
| TrieDb.TrieDb.Deref | libdevcore/TrieDB.h:939-942 | a reference leads back to the node |
| TrieDb.TrieDb.Place | libdevcore/TrieDB.h:1071-1090 | sets the value at a node, from an empty place, a leaf or a branch, with exact counts, also for a branch that was never stored |
| TrieDb.TrieDb.CleveNode | libdevcore/TrieDB.h:1123-1142 | splits a pair in two, with exact counts |
| TrieDb.TrieDb.ForkNode | libdevcore/TrieDB.h:1190-1222 | turns a pair into a branch, with exact counts |
| TrieDb.TrieDb.ForkEntry | libdevcore/TrieDB.h:1211-1216 | the one entry of that branch, written out, stored or taken over |
| TrieDb.TrieDb.MergeAt | libdevcore/TrieDB.h:820-894 | the node after an insertion is the stored form of the specified trie, and every reference count changes by exactly the difference |
| TrieDb.TrieDb.MergeAtAux | libdevcore/TrieDB.h:896-915 | the same for a child, whether written out or behind a hash |
| TrieDb.TrieDb.MergeDown | libdevcore/TrieDB.h:845-854 | the case of an extension that the key follows |
| TrieDb.TrieDb.MergeIntoSlot | libdevcore/TrieDB.h:879-891 | the case of a branch: the branch given up, one slot rewritten |
| TrieDb.TrieDb.MergeSplit | libdevcore/TrieDB.h:856-869 | the case of a pair the key leaves: split or forked, then merged without being stored in between |
| TrieDb.TrieDb.IsTwoItemNode | libdevcore/TrieDB.h:933-937 | tells pairs from other nodes; a value is looked up as the hash it makes when padded to 32 bytes, and one that is longer throws |
| TrieDb.TrieDb.GraftNode | libdevcore/TrieDB.h:1144-1169 | fuses an extension with the pair below it, giving that pair up, with exact counts |
| TrieDb.TrieDb.FindUnique | libdevcore/TrieCommon.cpp:113-125 | the only occupied entry but one, or 255 if there is none or more than one |
| TrieDb.TrieDb.Collapse | libdevcore/TrieDB.h:1171-1188 | a branch with one entry left becomes a pair, fused with the pair below it if there is one |
| TrieDb.TrieDb.SettleBranch | libdevcore/TrieDB.h:1032-1045 | after a removal a branch stays, or collapses and fuses, with exact counts; a value left alone in it is tried for the hash of a pair |
| TrieDb.TrieDb.DeleteAt | libdevcore/TrieDB.h:944-1049 | the node after a removal is the stored form of the specified trie; not found, throwing and straying removals are those specified; the counts change by exactly the difference |
| TrieDb.TrieDb.DeleteAtAux | libdevcore/TrieDB.h:1051-1069 | the same for a child |
| TrieDb.TrieDb.DeleteBelowPair | libdevcore/TrieDB.h:971-986 | the case of a pair whose key is followed, the leaf whose key is only a prefix included, for the program does not look at the leaf flag |
| TrieDb.TrieDb.DeleteBelowLeaf | libdevcore/TrieDB.h:1051-1069 | the value of such a leaf is taken for a hash, and the removal goes on in the node of that hash: it throws, finds nothing, or finds the key, as the specification says |
| TrieDb.TrieDb.Seek | libdevcore/TrieDB.h:944-1047 | the way of a removal through a node that a value names, whatever node it is, until the key is found: nothing has changed by then |
| TrieDb.TrieDb.SeekBelow | libdevcore/TrieDB.h:1051-1069 | the same for an entry there, written out, behind a hash, or again a value taken for one |
| TrieDb.TrieDb.MergeEntries | libdevcore/TrieDB.h:883-891 | the sixteen entries of that branch: the one on the way of the key rewritten, the others copied, with exact counts |
| TrieDb.TrieDb.DeleteValue | libdevcore/TrieDB.h:992-1015 | the case of a value at a branch |
| TrieDb.TrieDb.DeleteInSlot | libdevcore/TrieDB.h:1016-1046 | the case of a slot, the read of the first nibble of an empty key included, which throws |
| TrieDb.TrieDb.RewriteSlot | libdevcore/TrieDB.h:1022-1046 | the branch with what is left of the slot: kept, collapsed, or, if only its value is left and cannot be made a leaf, given up with all it held |
| TrieDb.ShortIsNotHeld | libdevcore/TrieDB.h:1029-1038 | counts that lack a branch with a long value are not those of the trie |
| TrieDb.TrieDb.Init | libdevcore/TrieDB.h:76-76 | any sound store becomes that of the trie of the empty map, on top of what it counted before |
| TrieDb.TrieDb.Insert | libdevcore/TrieDB.h:760-776 | the root is that of the updated map, and every hash is counted exactly as often as nodes of the unfolded trie refer to it, the root once more |
| TrieDb.TrieDb.Remove | libdevcore/TrieDB.h:917-931 | throws, and goes astray, exactly when the conditions on the map and the hashes in the store say so; otherwise leaves root and counts of the smaller map; for an absent key nothing has changed unless it goes astray; a stored key for which it throws leaves the old root with a branch given up, and no valid trie |
| TrieDb.TrieDb.At | libdevcore/TrieDB.h:778-813 | the stored value, or the empty string for absent keys |
| TrieDb.TrieDb.AtAux | libdevcore/TrieDB.h:783-813 | descends by lookup, through hashes and written-out nodes |
| TrieDb.TrieDb.Contains | libdevcore/TrieDB.h:110-110 | true exactly for the keys of the map |
| TrieDb.TrieDb.IsEmptyTrie | libdevcore/TrieDB.h:97-97 | true exactly for the empty map |
| TrieDb.TrieDb.DescendKey | libdevcore/TrieDB.h:162-168 | takes from the set of hashes exactly those reached from a stored node, and accepts every canonical trie |
| TrieDb.TrieDb.Check | libdevcore/TrieDB.h:204-230 | accepts every valid state; with no left-overs allowed, exactly those in which every node that others hold is one of this trie, as in a store of its own |
| TrieDb.TrieDb.Purge | libdevcore/MemoryDB.cpp:159-169 | after a purge the store holds the root, the nodes reachable from it and what others hold, and nothing else |
| TrieHash.SharedByAll | libdevcore/TrieHash.cpp:67-77 | the number of nibbles that all entries share, and an entry that shares no more |
| TrieHash.GatherNibble | libdevcore/TrieHash.cpp:107-108 | the entries that go on with a nibble are next to each other |
| TrieHash.Hash256Rlp | libdevcore/TrieHash.cpp:46-136 | the one-pass construction gives the stored form of a canonical trie that holds exactly the entries given |
| TrieHash.Hash256Aux | libdevcore/TrieHash.cpp:138-157 | a child written out below 32 bytes and hashed otherwise |
| TrieHash.BranchNode | libdevcore/TrieHash.cpp:94-130 | the seventeen entries of a branch |
| TrieHash.ExtensionNode | libdevcore/TrieHash.cpp:78-91 | the pair for a shared stretch of nibbles |
| TrieHash.HexMapOf | libdevcore/TrieHash.cpp:164-166 | nibble keys in the order of the byte keys, of any lengths whose nibbles can be counted in 32 bits |
| TrieHash.Rlp256 | libdevcore/TrieHash.cpp:159-170 | the root node of the batch construction is that of the trie of the map |
| TrieHash.Hash256 | libdevcore/TrieHash.cpp:172-175 | the root hash of the map |
| TrieRuns.RunAgrees | libethcore/BlockInfo.cpp:147-171 | a run of insertions and removals that gets to its end, in a store of its own or a shared one, leaves the root that the batch construction gives for the map it leaves; every run gets there if no key is a proper prefix of another |
| TrieRuns.Run | libdevcore/TrieDB.h:101-108 | the trie holds the map the run leaves, with all that the trie's invariant says |
| TrieRuns.KeysOfOneLength | libdevcore/TrieDB.h:316-330 | among keys of one length none is a proper prefix of another |
| TrieRuns.Perform | libdevcore/TrieDB.h:101-108 | one operation acts on the map as it says, unless it throws or goes astray, which it does exactly when the specification of edits does |
| NodeBytes.BytesReadAsItems | libdevcore/RLP.cpp:76-112 | for every hash function of 32 bytes, the symbolic nodes written as bytes read back item by item, hashes as 32-byte strings |
| NodeBytes.NodeForms | libdevcore/TrieDB.h:803-812 | the empty trie is the empty string, a leaf and an extension a pair with a flagged key, a branch seventeen entries (Yellow Paper, Appendix D) |
| Items.PaddedIsTheNumber | libdevcore/RLP.h:278-296 | a value shorter than a hash is read as the hash that denotes the same number |
| NodeBytes.ChildForm | libdevcore/TrieDB.h:1114-1121 | a child stands in its parent as it is below 32 bytes, and else as the hash of its bytes |
| TrieOrder.EntriesAscend | libdevcore/TrieDB.h:651-748 | the entries of a trie come in ascending nibble order |
| TrieOrder.EntriesAreTheMap | libdevcore/TrieDB.h:651-748 | they are exactly the pairs of the map, each once |
| TrieSeek.DropBeforeIsLowerBound | libdevcore/TrieDB.h:513-649 | skipping what comes before a key leaves everything from its lower bound on |
| TrieSeek.SeekPairAside | libdevcore/TrieDB.h:556-570 | a pair off the key sought is skipped or taken whole, as isEarlierThan decides |
| TrieSeek.SeekBranch | libdevcore/TrieDB.h:593-603 | at a branch the search goes to one slot and takes all later ones whole |
| TrieIterator.Iterator.constructor | libdevcore/TrieDB.h:488-493 | stands before the first entry: everything is left |
| TrieIterator.Iterator.At | libdevcore/TrieDB.h:502-511 | the value, and the key as the whole bytes its nibbles make |
| TrieIterator.Iterator.Next | libdevcore/TrieDB.h:651-748 | moves to the first of the entries left and leaves the others, or off the end; terminates |
| TrieIterator.Iterator.Find | libdevcore/TrieDB.h:513-649 | moves to the first entry not before the key, and leaves those behind it; terminates |
| TrieIterator.Iterator.Step | libdevcore/TrieDB.h:516-648 | one round either stops at the first entry left or keeps what is left and reduces the work |
| TrieIterator.Iterator.ComparePair | libdevcore/TrieDB.h:551-586 | the three outcomes at a pair: follow, skip, take whole |
| TrieIterator.Iterator.EnterBranch | libdevcore/TrieDB.h:593-604 | where a branch is begun |
| TrieIterator.Iterator.Scan | libdevcore/TrieDB.h:619-648 | the loop over the positions of a branch |
| TrieIterator.Iterator.StopOrEnter | libdevcore/TrieDB.h:622-645 | what happens at the position found |
| TrieIterator.Iterator.EnterExt | libdevcore/TrieDB.h:572-591 | an extension is replaced by the node below it |
| TrieIterator.Iterator.StopAtLeaf | libdevcore/TrieDB.h:573-581 | a leaf becomes the current entry |
| TrieIterator.FindOccupied | libdevcore/TrieDB.h:621-647 | skips unoccupied positions and gives up the key sought as soon as one is skipped |
| TrieIterator.VisitAll | libdevcore/TrieDB.h:156-157 | a pass from begin to end visits the pairs of the map, each once, in ascending order, and gives their keys as bytes |
| TrieIterator.LowerBound | libdevcore/TrieDB.h:159-159 | the least stored key that is not less than the one given, or the end |
| Scalar.Parameters | ethminer/secp256k1/scalar_4x64_impl.h:10-25 | the order and half of it by their limbs, the field size as 2^256 - 2^32 - 977, and their difference |
| Scalar.HighAndLow | ethminer/secp256k1/ecmult_impl.h:198-198 | a number is its high part times a power of two plus its low bits: what get_bits takes apart |
| Scalar.RestTaken | ethminer/secp256k1/ecmult_impl.h:198-205 | taking a word off the number takes its weight off the rest |
| Scalar.HighCarries | ethminer/secp256k1/ecmult_impl.h:200-200 | adding a bit carries one into the rest above it |
| Wnaf.Wnaf | ethminer/secp256k1/ecmult_impl.h:166-208 | the digits add up to the scalar, or to the scalar less the order if its top bit is set; each is zero or odd and below half a window; non-zero ones are a window apart, the last is not zero; there are at most 256, and at most one more than the number has bits |
| Wnaf.WriteDigit | ethminer/secp256k1/ecmult_impl.h:194-205 | one digit, written in place, keeps the balance of digits and rest |
| Wnaf.PadZeros | ethminer/secp256k1/ecmult_impl.h:191-193 | zeros up to the bit, nothing before them changed |
| Wnaf.CapShrinks | ethminer/secp256k1/ecmult_impl.h:194-205 | a borrowing digit carries at most to the number's highest bit, so that the carry stays below bit 256 and the buffer is never exceeded |
| Wnaf.WalkTakes | ethminer/secp256k1/ecmult_impl.h:198-205 | a digit made of a word, borrowed or not, keeps value, bounds and spacing |
| Wnaf.TopBit | ethminer/secp256k1/ecmult_impl.h:179-182 | after the sign test at most 255 bits are left |
| Ecmult.TableSizes | ethminer/secp256k1/ecmult_impl.h:14-25 | windows of 5 and 16 bits, with tables of 8 and 16384 multiples |
| Ecmult.OddMultiples | ethminer/secp256k1/ecmult_impl.h:39-66 | the table holds 1, 3, 5 and so on times the point, as many as the window's digits need |
| Ecmult.TableGet | ethminer/secp256k1/ecmult_impl.h:73-93 | the multiple that a digit stands for, negated for a negative one |
| Ecmult.IndexInTable | ethminer/secp256k1/ecmult_impl.h:74-80 | every index computed from a digit lies in the table |
| Ecmult.TailIsValue | ethminer/secp256k1/ecmult_impl.h:284-314 | digits summed from the top by doubling have the value summed by weights |
| Ecmult.Context.Build | ethminer/secp256k1/ecmult_impl.h:102-116 | the generator's table, built once |
| Ecmult.Context.Round | ethminer/secp256k1/ecmult_impl.h:285-313 | one doubling and at most two additions keep the partial sums of both digit strings |
| Ecmult.Context.Interleave | ethminer/secp256k1/ecmult_impl.h:282-314 | the loop over two digit strings of different lengths gives the sum of both multiples |
| Ecmult.Context.Multiply | ethminer/secp256k1/ecmult_impl.h:210-315 | na * A + ng * G for all scalars and every point of the group |
| EcmultGen.OffsetsCancel | ethminer/secp256k1/ecmult_gen.h:17-20 | the sixty-four offsets add up to nothing |
| EcmultGen.Context.Table | ethminer/secp256k1/ecmult_gen_impl.h:46-77 | entry i of row j is i * 16^j * G plus the offset of the row |
| EcmultGen.Context.FillRow | ethminer/secp256k1/ecmult_gen_impl.h:54-58 | a row by repeated addition, the others untouched |
| EcmultGen.Context.NextOffset | ethminer/secp256k1/ecmult_gen_impl.h:63-69 | offsets double, and the last one makes all of them cancel |
| EcmultGen.Context.Build | ethminer/secp256k1/ecmult_gen_impl.h:19-79 | table and blinding are set up once |
| EcmultGen.Context.Select | ethminer/secp256k1/ecmult_gen_impl.h:117-129 | looking at all entries of a row gives the one wanted |
| EcmultGen.Context.Multiply | ethminer/secp256k1/ecmult_gen_impl.h:104-136 | gn * G, whatever the table's offsets and the blinding |
| EcmultGen.Context.Blind | ethminer/secp256k1/ecmult_gen_impl.h:139-182 | the new starting point takes back exactly the new blinding, computed under the old one |
| EcmultGen.Unblinds | ethminer/secp256k1/ecmult_gen_impl.h:111-113 | starting point plus blinded multiple is the multiple asked for |
| Curve.TimesInverse | ethminer/secp256k1/ecdsa_impl.h:146-146 | multiplying by a scalar and by its inverse undo each other |
| Ecdsa.TwoCases | ethminer/secp256k1/ecdsa_impl.h:157-186 | a coordinate reduces to r exactly in one of the two cases that are tested without reducing it |
| Ecdsa.SigVerify | ethminer/secp256k1/ecdsa_impl.h:135-187 | accepts exactly the signatures for which a point other than zero satisfies s * R = m * G + r * Q and has a coordinate that reduces to r (SEC 1 section 4.1.4) |
| Ecdsa.SigRecover | ethminer/secp256k1/ecdsa_impl.h:189-220 | gives exactly the key that satisfies the equation with the point the recovery number describes (SEC 1 section 4.1.6) |
| Ecdsa.SigSign | ethminer/secp256k1/ecdsa_impl.h:222-261 | fails exactly when r or s would be zero; otherwise r is the coordinate of the nonce's point, s is low, and the recovery number, flipped when s was negated and marked when x overflowed, describes that point or its negative and recovers the signer's key |
| Ecdsa.SignatureIsUnique | ethminer/secp256k1/ecdsa_impl.h:222-261 | secret, message and nonce leave room for one such signature and recovery number only |
| Ecdsa.PointIsUnique | ethminer/secp256k1/ecdsa_impl.h:146-150 | the point computed in verification is the only one that satisfies the equation |
| Ecdsa.KeyIsUnique | ethminer/secp256k1/ecdsa_impl.h:213-217 | the key computed in recovery is the only one that satisfies the equation |
| Ecdsa.VerifiesIffRecovers | ethminer/secp256k1/ecdsa_impl.h:135-220 | verification accepts a key if and only if one of the four recovery numbers gives it |
| Ecdsa.RecoveryIsUnique | ethminer/secp256k1/ecdsa_impl.h:189-220 | no recovery number stands for two keys |
| Ecdsa.SignatureHolds | ethminer/secp256k1/ecdsa_impl.h:244-253 | the signature computed satisfies the equation for the nonce's point, and s is zero only with the bracket |
| Ecdsa.SignedVerifies | ethminer/secp256k1/ecdsa_impl.h:135-261 | whatever recovers a key verifies under it, so that what is signed verifies |
| Compact.SetB32 | ethminer/secp256k1.c:167-177 | a 32-byte number reduced by the order, with the overflow flag |
| Compact.ScalarRoundTrip | ethminer/secp256k1.c:186-189 | a scalar survives being written as 32 bytes |
| Compact.SignCompact | ethminer/secp256k1.c:152-198 | succeeds exactly for a valid secret and a sequence of nonces with a fit one, and gives 64 bytes of a low signature made with the first fit nonce, which recovers the signer's key; zeros otherwise |
| Compact.RecoverCompact | ethminer/secp256k1.c:200-226 | gives exactly the key recovered from the two halves, none if either is not below the order |
| Compact.SignThenRecover | ethminer/secp256k1.c:152-226 | under any blinding signing succeeds when it should, and what is signed recovers to the signer's key |
| RangeMask.RangeMask.UnionWith | libdevcore/RangeMask.h:233-292 | exactly the set union with the range; intervals stay sorted, non-empty and apart; terminates |
| RangeMask.RangeMask.UnionStep | libdevcore/RangeMask.h:236-290 | one round advances, adds what it passes over and nothing else |
| RangeMask.RangeMask.UnionWithMask | libdevcore/RangeMask.h:102-109 | the union of members and of ground ranges |
| RangeMask.RangeMask.Add | libdevcore/RangeMask.h:118-121 | adds one member |
| RangeMask.RangeMask.Inverted | libdevcore/RangeMask.h:78-91 | the complement in the ground range, in canonical form |
| RangeMask.RangeMask.Invert | libdevcore/RangeMask.h:95-95 | the mask becomes its complement |
| RangeMask.RangeMask.InvertTwice | libdevcore/RangeMask.h:95-95 | inverting twice gives back the very same map |
| RangeMask.RangeMask.MinusAssign | libdevcore/RangeMask.h:98-98 | complement, union and complement leave exactly what the formula for both ground ranges says |
| RangeMask.DifferenceIffCovered | libdevcore/RangeMask.h:98-98 | that is the set difference if and only if the operand holds every number its ground range adds, as it does when its ground range lies within |
| RangeMask.DifferenceAddsExample | libdevcore/RangeMask.h:98-98 | subtracting the empty mask over [0, 4) from the empty mask over [0, 2) puts in 2 and 3 |
| RangeMask.RangeMask.MinusAssignSelf | libdevcore/RangeMask.h:98-98 | subtracting a mask from itself leaves it unchanged |
| RangeMask.RangeMask.Lowest | libdevcore/RangeMask.h:66-72 | the smallest members, as many as asked for, if and only if no sum leaves 32 bits on the way; else exactly the members before the first range where one does |
| RangeMask.LowestMeaning | libdevcore/RangeMask.h:65-72 | min(n, size) members, each below every member left out |
| RangeMask.LowestOverrunsExample | libdevcore/RangeMask.h:69-70 | of {1, 3} asking for 2^32 - 1 members gives none |
| RangeMask.SmallRequestsNeverOverrun | libdevcore/RangeMask.h:66-72 | a request that fits above the ground range is served |
| RangeMask.RangeMask.Contains | libdevcore/RangeMask.h:123-129 | membership |
| RangeMask.RangeMask.Next | libdevcore/RangeMask.h:183-192 | the least member above t or the end of the ground range, except that the largest number wraps around to zero, which is right only for the empty mask |
| RangeMask.WrapsAroundExample | libdevcore/RangeMask.h:185-191 | after the largest number the mask {5} over [0, 10) gives 5 instead of the end |
| RangeMask.RangeMask.NextFrom | libdevcore/RangeMask.h:186-191 | the least member from a number on |
| RangeMask.RangeMask.Members | libdevcore/RangeMask.h:157-180 | iteration from begin to end visits every member once, ascending, and terminates |
| RangeMask.RangeMask.Size | libdevcore/RangeMask.h:195-201 | the number of members |
| RangeMask.CountIsCardinality | libdevcore/RangeMask.h:195-201 | counting interval lengths is the cardinality of the set |
| RangeMask.RangeMask.Full | libdevcore/RangeMask.h:136-139 | true exactly when every number of the ground range is a member |
| RangeMask.RangeMask.FirstOut | libdevcore/RangeMask.h:203-208 | the first number of the ground range that is no member |
| RangeMask.RangeMask.LastIn | libdevcore/RangeMask.h:210-215 | the largest member |
| RangeMask.CanonIsUnique | libdevcore/RangeMask.h:220-221 | canonical masks with the same members are the same map |
| Worker.InvariantHolds | libdevcore/Worker.cpp:32-118 | the invariant of lock, atomic state and thread holds after every schedule of any number of callers |
| Worker.ExchangeWindow | libdevcore/Worker.cpp:65-68 | the exchange never takes out Starting, and while Killing is out nobody changes the state |
| Worker.StopReturnsOutside | libdevcore/Worker.cpp:81-93 | in every schedule stopWorking returns only with the thread outside the work section and no way into it |
| Worker.StaysOutside | libdevcore/Worker.cpp:81-93 | it stays outside until a start gets the lock, whoever else moves |
| Worker.StopThenStart | libethcore/Miner.h:282-288 | after a stop has returned, a start returns only when the work section has been entered afresh |
| Worker.ThreadProgress | libdevcore/Worker.cpp:44-74 | every thread step brings whoever waits strictly closer |
| Worker.WaitsEnd | libdevcore/Worker.cpp:32-108 | start, stop and terminate get what they wait for within seven thread steps once the loop body returns |
| Worker.ServedStays | libdevcore/Worker.cpp:76-105 | what is waited for stays until the one who waits moves on |
| Worker.KillingIsFinal | libdevcore/Worker.cpp:95-108 | a thread being terminated never enters the work section again |
| Worker.StartIsMade | libdevcore/Worker.cpp:34-43 | a start that finds no thread, or one that has stopped, leaves the state Starting with a thread bound for the work section |
| Worker.WorkGoesOn | libdevcore/Worker.cpp:110-118 | until a stop or terminate gets the lock or the work loop leaves by itself, the thread stays in the work section with the state Started, and every second of its steps does work: how often is said exactly |
| Worker.StartedWorks | libdevcore/Worker.cpp:32-79 | from such a start on five thread steps do work, and two more for each further time; when the start returns the work section has been entered and not left |
| Worker.CallerMoves | libdevcore/Worker.cpp:32-108 | what a caller's step does: it takes the lock when it is free, keeps to its operation, moves on unless it has to wait, and gives the lock back |
| Worker.EveryCallReturns | libdevcore/Worker.cpp:32-108 | every call that has the lock gives it back within five rounds of seven thread steps and one of its own |
| Worker.TerminateReturnsAlone | libdevcore/Worker.cpp:95-108 | when terminate returns the thread is gone |
| DivMagic.CountLeadingZeros | libethash-cl/ethash_cl_miner.cpp:436-450 | the position of the highest bit; 32 for zero |
| DivMagic.MakeMagic | libethash-cl/ethash_cl_miner.cpp:452-463 | for every shift and divisor the remainder is that of 2^(32 + shift), and the quotient its lower 32 bits; nothing is cut off exactly when the divisor is above 2^shift |
| DivMagic.DoubleMagic | libethash-cl/ethash_cl_miner.cpp:489-492 | from quotient and remainder of n, each of 32 bits, the lower 32 bits of the quotient of 2n, through all wrap-arounds |
| DivMagic.Build | libethash-cl/ethash_cl_miner.cpp:467-497 | the constants divide every 32-bit number correctly if and only if the divisor is no power of two; the multiplier is the first above the power over the divisor, in one step exactly if the excess fits; neither constant nor increment overflows |
| DivMagic.MultiplierDivides | libethash-cl/ethash_cl_miner.cpp:481-496 | a multiplier slightly above the power over the divisor divides, as long as the total excess stays below one |
| DivMagic.FailsForPowers | libethash-cl/ethash_cl_miner.cpp:482-496 | for a power of two the divisor itself is divided to zero |
| Ini.ReadIni | ethminer/ini_parser_ex.hpp:71-150 | the line loop gives the tree or the first error with its line number |
| Ini.ReadingKeepsShape | ethminer/ini_parser_ex.hpp:86-145 | whatever is read has unique keys, trimmed entries, comments kept whole, and sections behind all other entries |
| IniText.SpacesAre | ethminer/ini_parser_ex.hpp:86-86 | the six characters that are trimmed |
| IniText.OnlySpacesGo | ethminer/ini_parser_ex.hpp:86-86 | what is trimmed off both ends is nothing but spaces |
| IniLines.LinesOfText | ethminer/ini_parser_ex.hpp:78-82 | the lines have no line end in them and make up the text |
| IniLines.ReadingLaw | ethminer/ini_parser_ex.hpp:71-150 | a text is read if and only if none of its lines is at fault, and then as the tree of its lines; else the answer is the first fault with the number of its line: an unmatched bracket, a section name or key there before, no equals sign, or nothing before it |
| IniWriter.CheckDupes | ethminer/ini_parser_ex.hpp:184-199 | comparing neighbours in key order finds exactly the repeated keys that are no comments |
| IniWriter.WriteIni | ethminer/ini_parser_ex.hpp:218-265 | the text of the tree or the first error, in the writer's order of checks |
| IniWriter.WriteNode | ethminer/ini_parser_ex.hpp:240-262 | the text of an entry or a section |
| IniWriter.WritingLaw | ethminer/ini_parser_ex.hpp:218-265 | a tree is written, line by line, if and only if its root has no data and no repeated key and no node is at fault; else the answer is the first of these that is not so |
| IniRoundTrip.ReadCanBeWritten | ethminer/ini_parser_ex.hpp:218-265 | whatever has been read can be written |
| IniRoundTrip.ReadsBack | ethminer/ini_parser_ex.hpp:71-265 | a tree whose leaves are well placed is read back from its text, with comments, blank lines and order |
| IniRoundTrip.RoundTrip | ethminer/ini_parser_ex.hpp:71-265 | reading, writing and reading again gives the same tree if and only if no empty section comes behind one with entries or has a name that is no key |
| IniRoundTrip.RoundTripWithoutEmptySections | ethminer/ini_parser_ex.hpp:71-265 | a text without empty sections round-trips |
| IniRoundTrip.EmptySectionIsLost | ethminer/ini_parser_ex.hpp:241-246 | a text that reads to an ill-placed empty section |

## Left out

- Keccak, SHA-256, RIPEMD-160 and the RFC 6979 nonce generator: fixed mixing of bits; hashes are symbolic, nonces and blinding numbers are parameters.
- Two nodes with the same hash: they have two entries in the model's store, and 32 bytes stand for one of them.
- TrieDb.TrieDb.Remove: while references are enforced, for which the program has a switch that it never uses, a lookup sees some of the hashes in the store, and the contract does not say which; otherwise it sees all of them.
- A removal that goes astray is followed until it has found what it takes out of the wrong place; `TrieStray` adds what is written there and the reference that is lost, not the state after all later steps.
- A pair in the store whose first entry is no string is no node of a trie; a removal led there is said to go astray, whatever it does. A chain of values that leads back to a node without using up any of the key never ends in the program and counts as throwing.
- Reference counts are unbounded, where `MemoryDB` counts in 32 bits; its locks, its auxiliary table and the mode without reference counting are not modelled.
- The trie methods pass on the nibbles of a key where the program passes on a `NibbleSlice`; the slice and its operations are verified in `HexPrefix`. The two loops that copy the sixteen slots of a branch in `place` and `deleteAt` are one update of a sequence.
- `GenericTrieDB::insert` of an empty value: the program stores it and reads it as absent; the model requires a non-empty value, which is what every caller passes.
- `isNull`, `setRoot` with verification, `debugStructure`, and `remove(RLP)`, which nothing calls.
- `FatGenericTrieDB` and `HashedGenericTrieDB`: their iterators are stubs; `orderedTrieRoot` only lists keys in order.
- RLP conversions to numbers and strings (`toInt`, `toString`, `convert`), and the reading modes that do not throw.
- secp256k1 field, scalar and point arithmetic, storage and affine conversions, the endomorphism path and constant-time behaviour; the group is abstract. The table of `ecmult_gen` is filled directly, without the intermediate array of 1024 points.
- `rescale` of the starting point in blinding, which does not change the point, and the loops that draw numbers until one is in range.
- Parsing and serialising of DER signatures and public keys.
- A divisor of zero in `DivMagic`, by which the program divides.
- The kernel that consumes the constants of `DivMagic`: its evaluation is the multiplication and shift of `Quotient`.
- WaitsEnd: counts one doing of work as one step, so it holds once the work loop's body returns; a work loop that overrides the default one is taken to leave when the state is no longer Started. Sleeps, logging and calls of `stopWorking` from the worker thread itself, which would wait for itself, are not modelled.
- Contention in `Worker` among callers for the lock is any order; fairness of the lock is not modelled.
- INI: the classic locale only, no wide characters, no read errors of the stream, no file names. A stream that fails while writing leaves nothing behind in the model.
- `RangeMask` over other types than 32-bit numbers, `clear`, `reset`, `extendAll` and printing.
- Networking, the mining loops on GPUs, work distribution, hash-rate averages, DAG files, option storage and the console.
