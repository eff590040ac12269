/** The trie after any run of insertions and removals depends only on the map they leave. */
module TrieHistory {
  import opened Astray
  import opened Bytes
  import opened Trie
  import opened TrieFacts
  import opened TrieRemoval

  /** An insertion, or a removal together with the names in the store at that moment. */
  datatype Edit = Put(key: Key, value: Bytes) | Drop(key: Key, names: Names)

  ghost function Applied(m: Store, edits: seq<Edit>): Store
    decreases edits
  {
    if edits == [] then m
    else match edits[0]
      case Put(k, v) => Applied(m[k := v], edits[1..])
      case Drop(k, _) => Applied(m - {k}, edits[1..])
  }

  /** No removal throws or goes astray on the way. */
  ghost predicate Smooth(m: Store, edits: seq<Edit>)
    decreases edits
  {
    edits == [] ||
    match edits[0]
    case Put(k, v) => Smooth(m[k := v], edits[1..])
    case Drop(k, names) => !RemovalFails(m, k, names) && !RemovalStrays(m, k, names) && Smooth(m - {k}, edits[1..])
  }

  /** No empty value is inserted. */
  ghost predicate PutsValues(edits: seq<Edit>) {
    forall e | e in edits :: e.Put? ==> e.value != []
  }

  /** The same edits on the trie, up to the first that throws or goes astray. */
  ghost function Edited(t: Trie, edits: seq<Edit>): Removal
    requires Shaped(t)
    decreases edits
  {
    if edits == [] then Removed(t)
    else match edits[0]
      case Put(k, v) =>
        MergeShaped(t, k, v);
        Edited(Merge(t, k, v), edits[1..])
      case Drop(k, names) =>
        var r := Delete(t, k, names);
        match r
        case Fault | Stray => r
        case NotFound => Edited(t, edits[1..])
        case Removed(u) => if Shaped(u) then Edited(u, edits[1..]) else Fault
  }

  /** A run gets to its end exactly if it is smooth, and then with the trie of the map it leaves. */
  lemma {:induction false} EditedIsTrieOf(m: Store, edits: seq<Edit>)
    requires NonEmptyValues(m) && PutsValues(edits)
    ensures Edited(TrieOf(m), edits).Removed? <==> Smooth(m, edits)
    ensures NonEmptyValues(Applied(m, edits))
    ensures Smooth(m, edits) ==> Edited(TrieOf(m), edits) == Removed(TrieOf(Applied(m, edits)))
    decreases edits
  {
    if edits != [] {
      match edits[0]
      case Put(k, v) =>
        assert edits[0] in edits;
        InsertIntoTrieOf(m, k, v);
        EditedIsTrieOf(m[k := v], edits[1..]);
      case Drop(k, names) =>
        DeleteFromTrieOf(m, k, names);
        assert k !in m ==> m - {k} == m;
        assert NonEmptyValues(m - {k});
        EditedIsTrieOf(m - {k}, edits[1..]);
    }
  }

  /** Any two runs that leave the same map leave the same trie, and so the same root. */
  lemma HistoryDoesNotMatter(a: seq<Edit>, b: seq<Edit>)
    requires PutsValues(a) && PutsValues(b)
    requires Smooth(map[], a) && Smooth(map[], b) && Applied(map[], a) == Applied(map[], b)
    ensures Edited(Empty, a) == Edited(Empty, b) && Edited(Empty, a).Removed?
  {
    TrieOfIsUnique(Empty, map[]);
    EditedIsTrieOf(map[], a);
    EditedIsTrieOf(map[], b);
  }

  /** Runs over keys of which none is a proper prefix of another are smooth, whatever the store has. */
  lemma {:induction false} PrefixFreeRunsSmoothly(m: Store, edits: seq<Edit>, keys: set<Key>)
    requires PrefixFree(keys) && m.Keys <= keys
    requires forall i | 0 <= i < |edits| :: edits[i].key in keys
    ensures Smooth(m, edits)
    decreases edits
  {
    if edits != [] {
      forall i | 0 <= i < |edits[1..]| ensures edits[1..][i] == edits[i + 1] {}
      match edits[0]
      case Put(k, v) =>
        PrefixFreeRunsSmoothly(m[k := v], edits[1..], keys);
      case Drop(k, names) =>
        PrefixFreeNeverFails(m, k, names);
        PrefixFreeRunsSmoothly(m - {k}, edits[1..], keys);
    }
  }
}
