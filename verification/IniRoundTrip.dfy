/** ethminer/ini_parser_ex.hpp: reading what has been written gives back what had been read. */
module IniRoundTrip {
  import opened Bytes
  import opened Ini
  import opened IniText
  import opened IniWriter

  // ---------------------------------------------------------------- the text of a tree

  function EntriesText(es: seq<Node>): string {
    if es == [] then "" else Line(es[0]) + "\n" + EntriesText(es[1..])
  }

  function NodeText(n: Node): string {
    if n.tree.children == [] then Line(n) + "\n" else Header(n) + "\n" + EntriesText(n.tree.children)
  }

  function NodesText(ns: seq<Node>): string {
    if ns == [] then "" else NodeText(ns[0]) + NodesText(ns[1..])
  }

  lemma UniqueNeverRepeats(nodes: seq<Node>)
    requires Unique(nodes)
    ensures !Repeats(Keys(nodes))
  {
  }

  lemma {:induction false} EntriesAreWritten(es: seq<Node>)
    requires forall e | e in es :: e.tree.children == []
    ensures WrittenEntries(es) == Ok(EntriesText(es))
  {
    if es != [] {
      assert es[0] in es;
      EntriesAreWritten(es[1..]);
    }
  }

  lemma {:induction false} NodesAreWritten(ns: seq<Node>)
    requires forall n | n in ns :: Plain(n) || IsSection(n)
    ensures WrittenNodes(ns) == Ok(NodesText(ns))
  {
    if ns != [] {
      var n := ns[0];
      assert n in ns;
      UniqueNeverRepeats(n.tree.children);
      EntriesAreWritten(n.tree.children);
      NodesAreWritten(ns[1..]);
    }
  }

  /** Whatever has been read can be written. */
  lemma ReadCanBeWritten(st: State)
    requires Shape(st)
    ensures Written(Tree("", st.nodes)) == Ok(NodesText(st.nodes))
  {
    UniqueNeverRepeats(st.nodes);
    forall n | n in st.nodes ensures Plain(n) || IsSection(n) {
      var i :| 0 <= i < |st.nodes| && st.nodes[i] == n;
    }
    NodesAreWritten(st.nodes);
  }

  // ---------------------------------------------------------------- reading line by line

  /** Reading goes on behind a line. */
  lemma ReadsLine(st: State, line: string, rest: string, lineNo: nat)
    requires st.Valid() && '\n' !in line
    ensures ReadFrom(st, line + "\n" + rest, lineNo)
         == var r := ReadLine(st, line, false, lineNo); if r.Err? then r else ReadFrom(r.value, rest, lineNo + 1)
  {
    var text := line + ['\n'] + rest;
    assert text == line + "\n" + rest;
    FindAfter(line, '\n', rest);
    assert text[..|line|] == line && text[|line| + 1..] == rest;
  }

  lemma ReadsEntry(st: State, e: Node, lineNo: nat)
    requires st.Valid() && Plain(e) && (e.key == ";" || !HasKey(Container(st), e.key))
    ensures '\n' !in Line(e) && ReadLine(st, Line(e), false, lineNo) == Ok(Push(st, [e]))
  {
    var key, data := e.key, e.tree.data;
    assert e == Leaf(key, data);
    if key != ";" {
      var line := key + ['='] + data;
      assert Line(e) == line;
      TightStays(line);
      FindAfter(key, '=', data);
      assert line[..|key|] == key && line[|key| + 1..] == data;
      TightStays(key);
      TightStays(data);
    }
  }

  lemma ReadsHeader(st: State, n: Node, lineNo: nat)
    requires st.Valid() && SectionName(n.key) && !HasKey(st.nodes, n.key)
    ensures '\n' !in Header(n) && ReadLine(st, Header(n), false, lineNo) == Ok(Open(st, n.key))
  {
    var line := "[" + n.key + [']'] + "";
    assert Header(n) == line;
    TightStays(line);
    FindAfter("[" + n.key, ']', "");
    assert line[1..|n.key| + 1] == n.key;
    TightStays(n.key);
  }

  /** The first of the entries. */
  lemma ReadsFirst(st: State, es: seq<Node>, rest: string, lineNo: nat)
    requires st.Valid() && es != [] && Unique(Container(st) + es) && Plain(es[0])
    ensures ReadFrom(st, EntriesText(es) + rest, lineNo)
         == ReadFrom(Push(st, [es[0]]), EntriesText(es[1..]) + rest, lineNo + 1)
    ensures Unique(Container(Push(st, [es[0]])) + es[1..])
  {
    hide ReadFrom, ReadLine, Push, Unique, HasKey, Plain, Line, EntriesText;
    NoneBefore(Container(st), es);
    ReadsEntry(st, es[0], lineNo);
    EntriesTextSplits(es, rest);
    ReadsLine(st, Line(es[0]), EntriesText(es[1..]) + rest, lineNo);
    assert Container(st) + [es[0]] + es[1..] == Container(st) + es;
  }

  lemma EntriesTextSplits(es: seq<Node>, rest: string)
    requires es != []
    ensures EntriesText(es) + rest == Line(es[0]) + "\n" + (EntriesText(es[1..]) + rest)
  {
  }

  lemma NodeTextSplits(n: Node, rest: string)
    requires n.tree.children != []
    ensures NodeText(n) + rest == Header(n) + "\n" + (EntriesText(n.tree.children) + rest)
  {
  }

  /** All entries of a container, one after the other. */
  lemma {:induction false} ReadsEntries(st: State, es: seq<Node>, rest: string, lineNo: nat)
    requires st.Valid() && Unique(Container(st) + es) && forall e | e in es :: Plain(e)
    ensures ReadFrom(st, EntriesText(es) + rest, lineNo) == ReadFrom(Push(st, es), rest, lineNo + |es|)
    decreases |es|
  {
    hide ReadFrom, ReadLine, Push, Line;
    if es == [] {
      assert EntriesText(es) + rest == rest;
      PushNothing(st);
    } else {
      var e, others := es[0], es[1..];
      assert e in es;
      ReadsFirst(st, es, rest, lineNo);
      ReadsEntries(Push(st, [e]), others, rest, lineNo + 1);
      PushTwice(st, [e], others);
      assert [e] + others == es;
    }
  }

  lemma NoneBefore(before: seq<Node>, es: seq<Node>)
    requires es != [] && Unique(before + es)
    ensures es[0].key == ";" || !HasKey(before, es[0].key)
  {
    var all := before + es;
    assert all[|before|] == es[0];
    forall i | 0 <= i < |before| ensures all[i] == before[i] {}
  }

  lemma PushNothing(st: State)
    requires st.Valid()
    ensures Push(st, []) == st
  {
    if st.first.Some? {
      var last := st.nodes[|st.nodes| - 1];
      assert last.tree.children + [] == last.tree.children;
      assert st.nodes[..|st.nodes| - 1] + [last] == st.nodes;
    } else {
      assert st.nodes + [] == st.nodes;
    }
  }

  lemma PushTwice(st: State, a: seq<Node>, b: seq<Node>)
    requires st.Valid()
    ensures Push(Push(st, a), b) == Push(st, a + b)
  {
    if st.first.Some? {
      var children := st.nodes[|st.nodes| - 1].tree.children;
      assert children + a + b == children + (a + b);
    } else {
      assert st.nodes + a + b == st.nodes + (a + b);
    }
  }

  /** The state after a section. */
  function WithSection(st: State, n: Node): (st': State)
    requires st.Valid()
    ensures st'.Valid()
  {
    State(st.nodes + [n], if st.first.Some? then st.first else Some(|st.nodes|))
  }

  lemma OpenThenPush(st: State, n: Node)
    requires st.Valid() && n.tree.data == ""
    ensures Push(Open(st, n.key), n.tree.children) == WithSection(st, n) && Container(Open(st, n.key)) == []
  {
    var start := Open(st, n.key);
    assert start.nodes[..|st.nodes|] == st.nodes;
    assert [] + n.tree.children == n.tree.children;
  }

  /** A section: its header and its entries. */
  lemma ReadsSection(st: State, n: Node, rest: string, lineNo: nat) returns (next: nat)
    requires st.Valid() && IsSection(n) && n.tree.children != [] && !HasKey(st.nodes, n.key)
    ensures ReadFrom(st, NodeText(n) + rest, lineNo) == ReadFrom(WithSection(st, n), rest, next)
  {
    hide ReadFrom, ReadLine, Push, Open;
    var es := n.tree.children;
    ReadsHeader(st, n, lineNo);
    NodeTextSplits(n, rest);
    ReadsLine(st, Header(n), EntriesText(es) + rest, lineNo);
    OpenThenPush(st, n);
    assert [] + es == es;
    ReadsEntries(Open(st, n.key), es, rest, lineNo + 1);
    next := lineNo + 1 + |es|;
  }

  lemma ReadsNothing(st: State, lineNo: nat)
    requires st.Valid()
    ensures ReadFrom(st, "", lineNo) == Ok(st)
  {
  }

  /** All sections, one after the other. */
  lemma {:induction false} ReadsSections(st: State, ns: seq<Node>, lineNo: nat)
    requires st.Valid() && forall n | n in ns :: IsSection(n) && n.tree.children != []
    requires forall i | 0 <= i < |ns| :: !HasKey(st.nodes + ns[..i], ns[i].key)
    ensures var r := ReadFrom(st, NodesText(ns), lineNo); r.Ok? && r.value.nodes == st.nodes + ns
    decreases |ns|
  {
    hide ReadFrom, ReadLine, IsSection, HasKey, NodeText;
    if ns == [] {
      assert st.nodes + ns == st.nodes;
      ReadsNothing(st, lineNo);
    } else {
      var n, others := ns[0], ns[1..];
      assert n in ns && st.nodes + ns[..0] == st.nodes;
      var next := ReadsSection(st, n, NodesText(others), lineNo);
      forall i | 0 <= i < |others| ensures !HasKey(st.nodes + [n] + others[..i], others[i].key) {
        assert st.nodes + [n] + others[..i] == st.nodes + ns[..i + 1];
      }
      ReadsSections(WithSection(st, n), others, next);
      assert st.nodes + [n] + others == st.nodes + ns;
    }
  }

  // ---------------------------------------------------------------- the round trip

  /** Number of nodes in front that have no children. */
  function Leaves(ns: seq<Node>): (k: nat)
    ensures k <= |ns| && (forall i | 0 <= i < k :: ns[i].tree.children == [])
    ensures k < |ns| ==> ns[k].tree.children != []
  {
    if ns == [] || ns[0].tree.children != [] then 0
    else
      var k := 1 + Leaves(ns[1..]);
      assert forall i | 0 < i < k :: ns[i] == ns[1..][i - 1];
      k
  }

  /**
    Whatever has no children, be it an entry or an empty section, comes before all sections that
    have some, and is written as a line from which it can be read.
   */
  predicate WellPlaced(ns: seq<Node>) {
    forall i | 0 <= i < |ns| && ns[i].tree.children == [] :: i < Leaves(ns) && Plain(ns[i])
  }

  lemma {:induction false} LeavesText(ns: seq<Node>)
    ensures NodesText(ns) == EntriesText(ns[..Leaves(ns)]) + NodesText(ns[Leaves(ns)..])
  {
    var k := Leaves(ns);
    if k == 0 {
      assert ns[0..] == ns && ns[..0] == [];
    } else {
      LeavesText(ns[1..]);
      assert ns[..k][1..] == ns[1..][..k - 1] && ns[k..] == ns[1..][k - 1..];
    }
  }

  lemma FrontIsPlain(st: State)
    requires Shape(st) && WellPlaced(st.nodes)
    ensures var es := st.nodes[..Leaves(st.nodes)]; Unique(es) && forall e | e in es :: Plain(e)
  {
    hide Plain, IsSection, HasKey;
    var es := st.nodes[..Leaves(st.nodes)];
    forall e | e in es ensures Plain(e) {
      var i :| 0 <= i < |es| && es[i] == e;
      assert st.nodes[i] == e;
    }
  }

  lemma BackIsSections(st: State, i: nat)
    requires Shape(st) && WellPlaced(st.nodes) && Leaves(st.nodes) <= i < |st.nodes|
    ensures var n := st.nodes[i]; IsSection(n) && n.tree.children != [] && !HasKey(st.nodes[..i], n.key)
  {
    hide IsSection, HasKey, Unique;
  }

  /** Entries and then sections. */
  lemma ReadsBoth(es: seq<Node>, ss: seq<Node>)
    requires Unique(es) && forall e | e in es :: Plain(e)
    requires forall n | n in ss :: IsSection(n) && n.tree.children != []
    requires forall i | 0 <= i < |ss| :: !HasKey(es + ss[..i], ss[i].key)
    ensures var r := ReadFrom(Blank, EntriesText(es) + NodesText(ss), 1); r.Ok? && r.value.nodes == es + ss
  {
    hide ReadFrom, IsSection, HasKey, Plain, NodesText, EntriesText, Unique;
    assert Container(Blank) + es == es && Push(Blank, es).nodes == es;
    ReadsEntries(Blank, es, NodesText(ss), 1);
    ReadsSections(Push(Blank, es), ss, 1 + |es|);
  }

  /** A tree in which all leaves are well placed is read back from its text. */
  lemma ReadsBack(st: State)
    requires Shape(st) && WellPlaced(st.nodes)
    ensures var r := ReadFrom(Blank, NodesText(st.nodes), 1); r.Ok? && r.value.nodes == st.nodes
  {
    hide ReadFrom, IsSection, HasKey, Plain, NodesText, EntriesText, Shape, WellPlaced, Unique;
    var ns := st.nodes;
    var k := Leaves(ns);
    var es, ss := ns[..k], ns[k..];
    FrontIsPlain(st);
    forall i | 0 <= i < |ss|
      ensures IsSection(ss[i]) && ss[i].tree.children != [] && !HasKey(es + ss[..i], ss[i].key)
    {
      assert es + ss[..i] == ns[..k + i];
      BackIsSections(st, k + i);
    }
    ReadsBoth(es, ss);
    LeavesText(ns);
    assert es + ss == ns;
  }

  // ---------------------------------------------------------------- and no other tree

  /** No section is empty, or none but the last. */
  predicate Filled(st: State, butLast: bool) {
    forall i | Roots(st) <= i < |st.nodes| - (if butLast then 1 else 0) :: st.nodes[i].tree.children != []
  }

  /** A line that opens no section. */
  predicate NoHeader(line: string) {
    '\n' !in line && var t := Trim(line); t == "" || t[0] != '[' || ']' !in t
  }

  lemma LeafIsNoHeader(n: Node)
    requires (Plain(n) || IsSection(n)) && n.tree.children == []
    ensures NoHeader(Line(n))
  {
    TrimTrims(Line(n));
    if Plain(n) && n.key != ";" {
      TightStays(Line(n));
    }
  }

  lemma NoHeaderFills(st: State, line: string, lineNo: nat)
    requires st.Valid() && Filled(st, true) && NoHeader(line)
    ensures var r := ReadLine(st, line, false, lineNo); r.Ok? ==> Filled(r.value, false)
  {
    NotFound(Trim(line), ']');
  }

  /** An entry never empties anything, and fills the section that has just been opened. */
  lemma {:induction false} EntriesFill(st: State, es: seq<Node>, rest: string, lineNo: nat) returns (st': State, next: nat)
    requires st.Valid() && Filled(st, es != []) && forall e | e in es :: Plain(e)
    ensures st'.Valid() && Filled(st', false)
    ensures var r := ReadFrom(st, EntriesText(es) + rest, lineNo); r.Err? || r == ReadFrom(st', rest, next)
    decreases |es|
  {
    hide ReadFrom, ReadLine, Line, Plain, Filled, NoHeader;
    if es == [] {
      st', next := st, lineNo;
      assert EntriesText(es) + rest == rest;
    } else {
      assert es[0] in es;
      PlainIsLeaf(es[0]);
      st', next := LineFills(st, Line(es[0]), EntriesText(es[1..]) + rest, lineNo);
      EntriesTextSplits(es, rest);
      FilledWeaker(st', es[1..] != []);
      st', next := EntriesFill(st', es[1..], rest, next);
    }
  }

  lemma PlainIsLeaf(n: Node)
    requires Plain(n)
    ensures NoHeader(Line(n)) && n.tree.children == []
  {
    LeafIsNoHeader(n);
  }

  lemma FilledWeaker(st: State, butLast: bool)
    requires Filled(st, false)
    ensures Filled(st, butLast)
  {
  }

  lemma LineFills(st: State, line: string, rest: string, lineNo: nat) returns (st': State, next: nat)
    requires st.Valid() && Filled(st, true) && NoHeader(line)
    ensures st'.Valid() && Filled(st', false)
    ensures var r := ReadFrom(st, line + "\n" + rest, lineNo); r.Err? || r == ReadFrom(st', rest, next)
  {
    hide ReadFrom, ReadLine, Filled;
    ReadsLine(st, line, rest, lineNo);
    NoHeaderFills(st, line, lineNo);
    var step := ReadLine(st, line, false, lineNo);
    next := lineNo + 1;
    st' := if step.Ok? then step.value else Blank;
    BlankIsFilled();
  }

  lemma BlankIsFilled()
    ensures Filled(Blank, false)
  {
  }

  lemma HeaderKeepsFilled(st: State, n: Node, rest: string, lineNo: nat) returns (st': State, next: nat)
    requires st.Valid() && Filled(st, false) && IsSection(n)
    ensures st'.Valid() && Filled(st', true)
    ensures var r := ReadFrom(st, Header(n) + "\n" + rest, lineNo); r.Err? || r == ReadFrom(st', rest, next)
  {
    HeaderLine(st, n, lineNo);
    hide ReadFrom, ReadLine, Header;
    ReadsLine(st, Header(n), rest, lineNo);
    next := lineNo + 1;
    st' := Open(st, n.key);
  }

  /** A header either opens its section or is a duplicate. */
  lemma HeaderLine(st: State, n: Node, lineNo: nat)
    requires st.Valid() && IsSection(n)
    ensures '\n' !in Header(n)
    ensures var r := ReadLine(st, Header(n), false, lineNo); r.Err? || r == Ok(Open(st, n.key))
  {
    var line := "[" + n.key + [']'] + "";
    assert Header(n) == line;
    TightStays(line);
    FindAfter("[" + n.key, ']', "");
    assert line[1..|n.key| + 1] == n.key;
    TightStays(n.key);
  }

  lemma {:induction false} NodesFill(st: State, ns: seq<Node>, lineNo: nat)
    requires st.Valid() && Filled(st, false) && forall n | n in ns :: Plain(n) || IsSection(n)
    ensures var r := ReadFrom(st, NodesText(ns), lineNo); r.Ok? ==> Filled(r.value, false)
    decreases |ns|
  {
    hide ReadFrom, ReadLine, Line, Plain, Filled, NoHeader, IsSection, Header;
    if ns == [] {
      ReadsNothing(st, lineNo);
    } else {
      assert ns[0] in ns;
      var st', next := NodeFills(st, ns[0], NodesText(ns[1..]), lineNo);
      NodesFill(st', ns[1..], next);
    }
  }

  lemma NodeFills(st: State, n: Node, rest: string, lineNo: nat) returns (st': State, next: nat)
    requires st.Valid() && Filled(st, false) && (Plain(n) || IsSection(n))
    ensures st'.Valid() && Filled(st', false)
    ensures var r := ReadFrom(st, NodeText(n) + rest, lineNo); r.Err? || r == ReadFrom(st', rest, next)
  {
    SectionEntries(n);
    hide ReadFrom, ReadLine, Line, Plain, Filled, NoHeader, IsSection, Header;
    if n.tree.children == [] {
      LeafIsNoHeader(n);
      FilledWeaker(st, true);
      st', next := LineFills(st, Line(n), rest, lineNo);
    } else {
      NodeTextSplits(n, rest);
      st', next := HeaderKeepsFilled(st, n, EntriesText(n.tree.children) + rest, lineNo);
      st', next := EntriesFill(st', n.tree.children, rest, next);
    }
  }

  lemma SectionEntries(n: Node)
    requires Plain(n) || IsSection(n)
    ensures n.tree.children != [] ==> IsSection(n) && forall e | e in n.tree.children :: Plain(e)
  {
  }

  /** Without an empty section everything is well placed. */
  lemma FilledIsWellPlaced(st: State)
    requires Shape(st) && Filled(st, false)
    ensures WellPlaced(st.nodes)
  {
    var k := Leaves(st.nodes);
    assert k < |st.nodes| ==> k >= Roots(st);
    forall i | 0 <= i < |st.nodes| && st.nodes[i].tree.children == [] ensures i < k && Plain(st.nodes[i]) {
      assert i < Roots(st);
    }
  }

  // ---------------------------------------------------------------- the theorem

  /**
    What has been read can always be written, and reading it again gives the same tree exactly when
    it is well placed: when no empty section comes behind one that is not empty or has a name that
    is no key.
   */
  lemma RoundTrip(text: string)
    requires ReadFrom(Blank, text, 1).Ok?
    ensures var nodes := ReadFrom(Blank, text, 1).value.nodes;
      var w := Written(Tree("", nodes));
      w.Ok? && (WellPlaced(nodes) <==> var again := ReadFrom(Blank, w.value, 1); again.Ok? && again.value.nodes == nodes)
  {
    hide ReadFrom, Written, WellPlaced, NodesText, Filled, Shape, Plain, IsSection;
    BlankHasShape();
    ReadingKeepsShape(Blank, text, 1);
    var st := ReadFrom(Blank, text, 1).value;
    ReadCanBeWritten(st);
    var out := NodesText(st.nodes);
    if WellPlaced(st.nodes) { ReadsBack(st); }
    var again := ReadFrom(Blank, out, 1);
    if again.Ok? {
      ReadingKeepsShape(Blank, out, 1);
      NodesHaveShape(st);
      BlankIsFilled();
      NodesFill(Blank, st.nodes, 1);
      FilledIsWellPlaced(again.value);
    }
  }

  lemma BlankHasShape()
    ensures Shape(Blank)
  {
  }

  lemma NodesHaveShape(st: State)
    requires Shape(st)
    ensures forall n | n in st.nodes :: Plain(n) || IsSection(n)
  {
    hide Plain, IsSection, HasKey, Unique;
    forall n | n in st.nodes ensures Plain(n) || IsSection(n) {
      var i :| 0 <= i < |st.nodes| && st.nodes[i] == n;
    }
  }

  /** A text without empty sections is read, written and read again to the same tree. */
  lemma RoundTripWithoutEmptySections(text: string)
    requires ReadFrom(Blank, text, 1).Ok? && Filled(ReadFrom(Blank, text, 1).value, false)
    ensures var nodes := ReadFrom(Blank, text, 1).value.nodes;
      var w := Written(Tree("", nodes));
      w.Ok? && var again := ReadFrom(Blank, w.value, 1); again.Ok? && again.value.nodes == nodes
  {
    hide ReadFrom, Written, WellPlaced, NodesText, Filled, Shape, Plain, IsSection;
    BlankHasShape();
    ReadingKeepsShape(Blank, text, 1);
    FilledIsWellPlaced(ReadFrom(Blank, text, 1).value);
    RoundTrip(text);
  }

  /** An empty section behind one that is not empty is read back as a key of that one. */
  lemma EmptySectionIsLost()
    ensures var r := ReadFrom(Blank, "[a]\nx=1\n[b]\n", 1);
      r.Ok? && r.value.nodes == [Node("a", Tree("", [Leaf("x", "1")])), Leaf("b", "")] && !WellPlaced(r.value.nodes)
  {
    var a, b := Node("a", Tree("", [Leaf("x", "1")])), Leaf("b", "");
    ExampleText(a, b);
    hide ReadFrom, ReadLine, NodeText, Header, Plain, IsSection, SectionName, Unique, WellPlaced, HasKey;
    var next := ReadsSection(Blank, a, "[b]\n", 1);
    var st := WithSection(Blank, a);
    ReadsHeader(st, b, next);
    ReadsLine(st, Header(b), "", next);
    ReadsNothing(Open(st, "b"), next + 1);
    assert Open(st, "b").nodes == [a, b];
    ExampleIsMisplaced(a, b);
  }

  lemma ExampleText(a: Node, b: Node)
    requires a == Node("a", Tree("", [Leaf("x", "1")])) && b == Leaf("b", "")
    ensures NodeText(a) + "[b]\n" == "[a]\nx=1\n[b]\n" && Header(b) + "\n" + "" == "[b]\n"
    ensures IsSection(a) && SectionName("b") && a.tree.children != []
    ensures !HasKey(Blank.nodes, "a") && !HasKey([a], "b") && WithSection(Blank, a).nodes == [a]
  {
    assert a.tree.children[0] == Leaf("x", "1");
  }

  lemma ExampleIsMisplaced(a: Node, b: Node)
    requires a.tree.children != [] && b.tree.children == []
    ensures !WellPlaced([a, b])
  {
    assert [a, b][1] == b && Leaves([a, b]) == 0;
  }
}
