/** Incremental and batch construction side by side, as BlockInfo::verifyInternals relies on them. */
module TrieRuns {
  import opened Astray
  import opened Bytes
  import opened Items
  import opened TrieFacts
  import opened TrieRemoval
  import opened TrieHistory
  import MemoryDb
  import Ledger
  import TrieDb
  import TrieHash

  /** An operation on a trie, as its callers give it. */
  datatype Operation = Insert(key: Bytes, value: Bytes) | Remove(key: Bytes)

  /** The edit an operation is, in a store with these names. */
  function EditOf(op: Operation, names: Names): Edit {
    match op
    case Insert(key, value) => Put(AsNibbles(key), value)
    case Remove(key) => Drop(AsNibbles(key), names)
  }

  /** The map that a run leaves. */
  function Left(m: Store, ops: seq<Operation>): Store
    decreases ops
  {
    if ops == [] then m
    else match ops[0]
      case Insert(key, value) => Left(m[AsNibbles(key) := value], ops[1..])
      case Remove(key) => Left(m - {AsNibbles(key)}, ops[1..])
  }

  ghost predicate InsertsValues(ops: seq<Operation>) {
    forall op | op in ops :: op.Insert? ==> op.value != []
  }

  ghost function KeysOf(ops: seq<Operation>): set<Key> {
    set op | op in ops :: AsNibbles(op.key)
  }

  /** One operation on the trie: it is done exactly if as an edit it is smooth. */
  method Perform(trie: TrieDb.TrieDb, op: Operation) returns (done: bool, ghost names: Names)
    requires trie.Valid() && (op.Insert? ==> op.value != [])
    modifies trie`root, trie`contents, trie.db`main
    ensures MemoryDb.Among(old(trie.db.main), trie.db.enforceRefs, trie.named, names)
    ensures done <==> Smooth(old(trie.contents), [EditOf(op, names)])
    ensures done ==> trie.Valid() && trie.contents == Left(old(trie.contents), [op])
    ensures done <== PrefixFree(old(trie.contents).Keys + {AsNibbles(op.key)})
  {
    hide RemovalFails, RemovalStrays, PrefixFree;
    ghost var m := trie.contents;
    assert [op][1..] == [];
    match op
    case Insert(key, value) =>
      names := MemoryDb.NamesSeen(trie.db.main, trie.db.enforceRefs, trie.named);
      MemoryDb.SeenAreNames(trie.db.main, trie.db.main, trie.db.enforceRefs, trie.named);
      trie.Insert(key, value);
      done := true;
    case Remove(key) =>
      var verdict;
      verdict, names := trie.Remove(key);
      done := verdict.Done?;
      if PrefixFree(m.Keys + {AsNibbles(key)}) { PrefixFreeNeverFails(m, AsNibbles(key), names); }
    assert [EditOf(op, names)][1..] == [];
  }

  /** A run of operations, up to the first that throws or goes astray. */
  method Run(trie: TrieDb.TrieDb, ops: seq<Operation>) returns (done: bool)
    requires trie.Valid() && InsertsValues(ops)
    modifies trie`root, trie`contents, trie.db`main
    ensures done ==> trie.Valid() && trie.contents == Left(old(trie.contents), ops)
    ensures done <== PrefixFree(old(trie.contents).Keys + KeysOf(ops))
  {
    hide Smooth, PrefixFree, Left;
    ghost var m, all := trie.contents, trie.contents.Keys + KeysOf(ops);
    done := true;
    var rest := ops;
    NothingLeft(m);
    while rest != []
      invariant done && trie.Valid() && InsertsValues(rest)
      invariant Left(trie.contents, rest) == Left(m, ops)
      invariant trie.contents.Keys + KeysOf(rest) <= all
      decreases |rest|
    {
      var op := rest[0];
      assert op in rest && AsNibbles(op.key) in KeysOf(rest);
      ghost var was := trie.contents;
      FewerKeys(all, was.Keys + {AsNibbles(op.key)});
      SplitRun(was, rest);
      ghost var names;
      done, names := Perform(trie, op);
      if !done { return; }
      rest := rest[1..];
    }
    NothingLeft(trie.contents);
  }

  /**
    A trie that a run of insertions and removals has gone through, in a store of its own or among
    the nodes of others, has the root that the batch construction gives for the map the run leaves,
    listed in the order of its keys. Every run gets there if no key is a proper prefix of another.
   */
  method RunAgrees(store: MemoryDb.MemoryDb, named: Bytes -> Hash, ops: seq<Operation>, sorted: seq<(Bytes, Bytes)>)
    returns (done: bool, incremental: Hash, batch: Hash)
    requires Ledger.Sound(store.main) && InsertsValues(ops) && TrieHash.SortedMap(sorted)
    requires Left(map[], ops) == TrieHash.StoreOf(sorted)
    modifies store`main
    ensures done ==> incremental == batch
    ensures done <== PrefixFree(KeysOf(ops))
  {
    var trie := new TrieDb.TrieDb(store, named);
    trie.Init();
    assert trie.contents.Keys + KeysOf(ops) == KeysOf(ops);
    done := Run(trie, ops);
    incremental := trie.root;
    batch := TrieHash.Hash256(sorted);
  }

  lemma NothingLeft(m: Store)
    ensures Left(m, []) == m
  {
  }

  lemma FewerKeys(all: set<Key>, some: set<Key>)
    requires some <= all
    ensures PrefixFree(all) ==> PrefixFree(some)
  {
  }

  /** What a run leaves is what its rest leaves of what its first operation leaves. */
  lemma SplitRun(m: Store, ops: seq<Operation>)
    requires ops != []
    ensures Left(m, ops) == Left(Left(m, [ops[0]]), ops[1..])
    ensures InsertsValues(ops) ==> InsertsValues(ops[1..]) && (ops[0].Insert? ==> ops[0].value != [])
    ensures Left(m, [ops[0]]).Keys <= m.Keys + {AsNibbles(ops[0].key)}
    ensures KeysOf(ops[1..]) <= KeysOf(ops)
  {
    assert [ops[0]][1..] == [];
    assert InsertsValues(ops) ==> ops[0] in ops;
  }

  /** Runs over keys of one length, which is how removal is used, get to their end. */
  lemma KeysOfOneLength(ops: seq<Operation>, n: nat)
    requires forall op | op in ops :: |op.key| == n
    ensures PrefixFree(KeysOf(ops))
  {
    OneLengthIsPrefixFree(KeysOf(ops), 2 * n);
  }
}
