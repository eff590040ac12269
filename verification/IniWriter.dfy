/**
  ethminer/ini_parser_ex.hpp, write_ini and check_dupes, and what the reader makes of what the
  writer has written.
 */
module IniWriter {
  import opened Bytes
  import opened Ini

  // ---------------------------------------------------------------- check_dupes

  /** The order of the keys: that of strings. */
  predicate Leq(a: string, b: string) {
    a == "" || (b != "" && (a[0] < b[0] || (a[0] == b[0] && Leq(a[1..], b[1..]))))
  }

  lemma {:induction false} LeqIsOrder(a: string, b: string, c: string)
    ensures Leq(a, b) || Leq(b, a)
    ensures Leq(a, b) && Leq(b, c) ==> Leq(a, c)
    ensures Leq(a, b) && Leq(b, a) ==> a == b
  {
    if a != "" && b != "" {
      LeqIsOrder(a[1..], b[1..], if c == "" then "" else c[1..]);
      assert a == [a[0]] + a[1..] && b == [b[0]] + b[1..];
    }
  }

  predicate Sorted(keys: seq<string>) { forall i, j | 0 <= i < j < |keys| :: Leq(keys[i], keys[j]) }

  function Keys(nodes: seq<Node>): (keys: seq<string>)
    ensures |keys| == |nodes| && forall i | 0 <= i < |nodes| :: keys[i] == nodes[i].key
  {
    seq(|nodes|, i requires 0 <= i < |nodes| => nodes[i].key)
  }

  /** Some key other than ";" is there twice. */
  predicate Repeats(keys: seq<string>) {
    exists i, j :: 0 <= i < j < |keys| && keys[i] == keys[j] && keys[i] != ";"
  }

  /** Repetition does not depend on the order of the keys. */
  lemma {:induction false} RepeatsIsCounted(keys: seq<string>)
    ensures Repeats(keys) <==> exists k :: k != ";" && multiset(keys)[k] >= 2
  {
    if keys != [] {
      var front, last := keys[..|keys| - 1], keys[|keys| - 1];
      assert keys == front + [last];
      RepeatsIsCounted(front);
      RepeatsAtEnd(front, last);
      assert last in front <==> multiset(front)[last] >= 1;
      if k :| k != ";" && multiset(front)[k] >= 2 { assert multiset(keys)[k] >= 2; }
      if last != ";" && last in front { assert multiset(keys)[last] >= 2; }
    }
  }

  lemma RepeatsAtEnd(front: seq<string>, last: string)
    ensures Repeats(front + [last]) <==> Repeats(front) || (last != ";" && last in front)
  {
    var keys := front + [last];
    if i, j :| 0 <= i < j < |front| && front[i] == front[j] && front[i] != ";" {
      assert keys[i] == keys[j];
    }
    if last != ";" && last in front {
      var i :| 0 <= i < |front| && front[i] == last;
      assert keys[i] == keys[|front|];
    }
  }

  /** check_dupes, over the keys in the order of their index. */
  method CheckDupes(nodes: seq<Node>, ordered: seq<string>) returns (dupes: bool)
    requires Sorted(ordered) && multiset(ordered) == multiset(Keys(nodes))
    ensures dupes <==> Repeats(Keys(nodes))
  {
    RepeatsIsCounted(Keys(nodes));
    RepeatsIsCounted(ordered);
    assert |multiset(ordered)| == |ordered| && |multiset(Keys(nodes))| == |nodes|;
    if |nodes| <= 1 { return false; }
    var i := 1;
    while i < |ordered|
      invariant 1 <= i <= |ordered|
      invariant forall k | 0 < k < i :: ordered[k - 1] != ordered[k] || ordered[k] == ";"
    {
      if ordered[i - 1] == ordered[i] && ordered[i - 1] != ";" {
        return true;
      }
      i := i + 1;
    }
    forall a, b | 0 <= a < b < |ordered| && ordered[a] == ordered[b] ensures ordered[a] == ";" {
      LeqIsOrder(ordered[a], ordered[a + 1], ordered[b]);
      LeqIsOrder(ordered[a + 1], ordered[b], ordered[a]);
    }
    return false;
  }

  function Inserted(key: string, keys: seq<string>): seq<string> {
    if keys == [] || Leq(key, keys[0]) then [key] + keys else [keys[0]] + Inserted(key, keys[1..])
  }

  /** The index of a property tree, its keys in ascending order. */
  function Ordered(keys: seq<string>): seq<string> {
    if keys == [] then [] else Inserted(keys[0], Ordered(keys[1..]))
  }

  lemma {:induction false} InsertedSorts(key: string, keys: seq<string>)
    requires Sorted(keys)
    ensures Sorted(Inserted(key, keys)) && multiset(Inserted(key, keys)) == multiset(keys) + multiset{key}
  {
    if keys == [] {
    } else if Leq(key, keys[0]) {
      forall j | 0 <= j < |keys| ensures Leq(key, keys[j]) { LeqIsOrder(key, keys[0], keys[j]); }
    } else {
      InsertedSorts(key, keys[1..]);
      assert keys == [keys[0]] + keys[1..];
      var rest := Inserted(key, keys[1..]);
      LeqIsOrder(key, keys[0], key);
      forall j | 0 <= j < |rest| ensures Leq(keys[0], rest[j]) {
        assert rest[j] in multiset(rest);
        if rest[j] != key { assert rest[j] in keys[1..]; }
      }
    }
  }

  lemma {:induction false} OrderedSorts(keys: seq<string>)
    ensures Sorted(Ordered(keys)) && multiset(Ordered(keys)) == multiset(keys)
  {
    if keys != [] {
      OrderedSorts(keys[1..]);
      InsertedSorts(keys[0], Ordered(keys[1..]));
      assert keys == [keys[0]] + keys[1..];
    }
  }

  // ---------------------------------------------------------------- write_ini

  /** An entry without its line end. */
  function Line(n: Node): string { if n.key == ";" then n.tree.data else n.key + "=" + n.tree.data }

  function Header(n: Node): string { "[" + n.key + "]" }

  function Prepend(s: string, r: Result<string>): Result<string> { if r.Ok? then Ok(s + r.value) else r }

  ghost function WrittenEntries(es: seq<Node>): Result<string> {
    if es == [] then Ok("")
    else if es[0].tree.children != [] then Err(TooDeep, 0)
    else Prepend(Line(es[0]) + "\n", WrittenEntries(es[1..]))
  }

  ghost function WrittenNode(n: Node): Result<string> {
    if Repeats(Keys(n.tree.children)) then Err(DuplicateKeys, 0)
    else if n.tree.children == [] then Ok(Line(n) + "\n")
    else if n.tree.data != "" then Err(MixedData, 0)
    else Prepend(Header(n) + "\n", WrittenEntries(n.tree.children))
  }

  ghost function WrittenNodes(ns: seq<Node>): Result<string> {
    if ns == [] then Ok("")
    else
      var first := WrittenNode(ns[0]);
      if first.Err? then first else Prepend(first.value, WrittenNodes(ns[1..]))
  }

  ghost function Written(t: Tree): Result<string> {
    if t.data != "" then Err(DataOnRoot, 0)
    else if Repeats(Keys(t.children)) then Err(DuplicateKeys, 0)
    else WrittenNodes(t.children)
  }

  lemma Prepended(a: string, b: string, r: Result<string>)
    ensures Prepend(a, Prepend(b, r)) == Prepend(a + b, r) && Prepend("", r) == r && a + "" == a
  {
    if r.Ok? { assert "" + r.value == r.value; }
    if r.Ok? { assert a + (b + r.value) == a + b + r.value; }
  }

  /** write_ini */
  method WriteIni(t: Tree) returns (r: Result<string>)
    ensures r == Written(t)
  {
    if t.data != "" { return Err(DataOnRoot, 0); }
    OrderedSorts(Keys(t.children));
    var dupes := CheckDupes(t.children, Ordered(Keys(t.children)));
    if dupes { return Err(DuplicateKeys, 0); }
    var out := "";
    var i: nat := 0;
    assert t.children[0..] == t.children;
    Prepended("", "", WrittenNodes(t.children));
    while i < |t.children|
      invariant i <= |t.children|
      invariant Prepend(out, WrittenNodes(t.children[i..])) == WrittenNodes(t.children)
    {
      var node := WriteNode(t.children[i]);
      if node.Err? { return node; }
      Prepended(out, node.value, WrittenNodes(t.children[i..][1..]));
      assert t.children[i..][1..] == t.children[i + 1..];
      out := out + node.value;
      i := i + 1;
    }
    assert out + "" == out;
    r := Ok(out);
  }

  method WriteNode(n: Node) returns (r: Result<string>)
    ensures r == WrittenNode(n)
  {
    OrderedSorts(Keys(n.tree.children));
    var dupes := CheckDupes(n.tree.children, Ordered(Keys(n.tree.children)));
    if dupes { return Err(DuplicateKeys, 0); }
    if n.tree.children == [] { return Ok(Line(n) + "\n"); }
    if n.tree.data != "" { return Err(MixedData, 0); }
    var es := n.tree.children;
    var out := Header(n) + "\n";
    var i: nat := 0;
    assert es[0..] == es;
    while i < |es|
      invariant i <= |es|
      invariant Prepend(out, WrittenEntries(es[i..])) == WrittenNode(n)
    {
      if es[i].tree.children != [] { return Err(TooDeep, 0); }
      Prepended(out, Line(es[i]) + "\n", WrittenEntries(es[i..][1..]));
      assert es[i..][1..] == es[i + 1..];
      out := out + (Line(es[i]) + "\n");
      i := i + 1;
    }
    assert out + "" == out;
    r := Ok(out);
  }

  // ---------------------------------------------------------------- what is written, in lines

  /** A remark is written as it is, an entry with an equals sign. */
  function EntryLine(n: Node): string {
    if n.key == ";" then n.tree.data else n.key + "=" + n.tree.data
  }

  function EntryLines(es: seq<Node>): seq<string> {
    if es == [] then [] else [EntryLine(es[0])] + EntryLines(es[1..])
  }

  /** A node without children is an entry, one with children a section under its name in brackets. */
  function TreeLines(ns: seq<Node>): seq<string> {
    if ns == [] then []
    else
      var es := ns[0].tree.children;
      (if es == [] then [EntryLine(ns[0])] else ["[" + ns[0].key + "]"] + EntryLines(es)) + TreeLines(ns[1..])
  }

  /** Every line with its end. */
  function Ended(lines: seq<string>): string {
    if lines == [] then "" else lines[0] + "\n" + Ended(lines[1..])
  }

  lemma {:induction false} EndedBoth(a: seq<string>, b: seq<string>)
    ensures Ended(a + b) == Ended(a) + Ended(b)
  {
    if a == [] {
      assert a + b == b;
    } else {
      assert (a + b)[1..] == a[1..] + b;
      EndedBoth(a[1..], b);
    }
  }

  /** What keeps a node from being written. */
  ghost function NodeFault(n: Node): Option<Error> {
    var es := n.tree.children;
    if exists i, j :: 0 <= i < j < |es| && es[i].key == es[j].key && es[i].key != ";" then Some(DuplicateKeys)
    else if es != [] && n.tree.data != "" then Some(MixedData)
    else if exists i :: 0 <= i < |es| && es[i].tree.children != [] then Some(TooDeep)
    else None
  }

  lemma {:induction false} EntriesLaw(es: seq<Node>)
    ensures WrittenEntries(es) ==
      if exists i :: 0 <= i < |es| && es[i].tree.children != [] then Err(TooDeep, 0) else Ok(Ended(EntryLines(es)))
  {
    if es != [] {
      EntriesLaw(es[1..]);
      if i :| 0 <= i < |es[1..]| && es[1..][i].tree.children != [] { assert es[i + 1].tree.children != []; }
    }
  }

  lemma NodeLaw(n: Node)
    ensures WrittenNode(n) == match NodeFault(n)
      case Some(e) => Err(e, 0)
      case None => Ok(Ended(TreeLines([n])))
  {
    var es := n.tree.children;
    EntriesLaw(es);
    assert [n][1..] == [];
    KeysRepeat(es);
    OneNode(n);
  }

  lemma OneNode(n: Node)
    ensures var es := n.tree.children;
      Ended(TreeLines([n])) == if es == [] then Line(n) + "\n" else Header(n) + "\n" + Ended(EntryLines(es))
  {
    var es := n.tree.children;
    var lines := if es == [] then [EntryLine(n)] else ["[" + n.key + "]"] + EntryLines(es);
    assert [n][1..] == [] && TreeLines([n]) == lines + [] == lines;
    if es == [] {
      assert lines[1..] == [] && Line(n) + "\n" + "" == Line(n) + "\n";
    } else {
      assert lines[1..] == EntryLines(es);
    }
  }

  lemma KeysRepeat(es: seq<Node>)
    ensures Repeats(Keys(es)) <==> exists i, j :: 0 <= i < j < |es| && es[i].key == es[j].key && es[i].key != ";"
  {
    if i, j :| 0 <= i < j < |es| && es[i].key == es[j].key && es[i].key != ";" { assert Keys(es)[i] == Keys(es)[j]; }
  }

  lemma LinesSplit(ns: seq<Node>)
    requires ns != []
    ensures TreeLines(ns) == TreeLines([ns[0]]) + TreeLines(ns[1..])
  {
    assert [ns[0]][1..] == [];
  }

  lemma {:induction false} NodesLaw(ns: seq<Node>)
    ensures var r := WrittenNodes(ns);
      if r.Ok? then r.value == Ended(TreeLines(ns)) && forall i | 0 <= i < |ns| :: NodeFault(ns[i]).None?
      else exists i :: 0 <= i < |ns| && r == Err(r.error, 0) && NodeFault(ns[i]) == Some(r.error) && forall j | 0 <= j < i :: NodeFault(ns[j]).None?
  {
    hide NodeFault;
    if ns != [] {
      NodeLaw(ns[0]);
      NodesLaw(ns[1..]);
      EndedBoth(TreeLines([ns[0]]), TreeLines(ns[1..]));
      LinesSplit(ns);
      hide TreeLines, Ended;
      var rest := WrittenNodes(ns[1..]);
      if NodeFault(ns[0]).None? && rest.Err? {
        var i :| 0 <= i < |ns[1..]| && NodeFault(ns[1..][i]) == Some(rest.error) && forall j | 0 <= j < i :: NodeFault(ns[1..][j]).None?;
        assert NodeFault(ns[i + 1]) == Some(rest.error);
        forall j | 0 <= j < i + 1 ensures NodeFault(ns[j]).None? { if j > 0 { assert ns[j] == ns[1..][j - 1]; } }
      }
    }
  }

  /**
    A tree is written, line by line, if and only if its root has no data and no key twice and none of
    its nodes is at fault; else the answer is the first of these that is not so.
   */
  lemma WritingLaw(t: Tree)
    ensures var r := Written(t);
      if t.data != "" then r == Err(DataOnRoot, 0)
      else if exists i, j :: 0 <= i < j < |t.children| && t.children[i].key == t.children[j].key && t.children[i].key != ";" then
        r == Err(DuplicateKeys, 0)
      else if r.Ok? then
        r.value == Ended(TreeLines(t.children)) && forall i | 0 <= i < |t.children| :: NodeFault(t.children[i]).None?
      else
        exists i :: 0 <= i < |t.children| && r == Err(r.error, 0) && NodeFault(t.children[i]) == Some(r.error)
          && forall j | 0 <= j < i :: NodeFault(t.children[j]).None?
  {
    hide NodeFault;
    KeysRepeat(t.children);
    NodesLaw(t.children);
  }
}
