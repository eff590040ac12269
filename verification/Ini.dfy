/**
  ethminer/ini_parser_ex.hpp: the INI reader that keeps comments and blank lines as entries with the
  key ";", and its writer.
 */
module Ini {
  import opened Bytes
  import opened IniText

  datatype Tree = Tree(data: string, children: seq<Node>)

  datatype Node = Node(key: string, tree: Tree)

  datatype Error =
    | UnmatchedBracket | DuplicateSection | EqualsNotFound | KeyExpected | DuplicateKey
    | DataOnRoot | DuplicateKeys | MixedData | TooDeep

  /** An error comes with its line; the writer's come with none. */
  datatype Result<T> = Ok(value: T) | Err(error: Error, line: nat)

  function Leaf(key: string, data: string): Node { Node(key, Tree(data, [])) }

  predicate HasKey(nodes: seq<Node>, key: string) {
    exists i :: 0 <= i < |nodes| && nodes[i].key == key
  }

  // ---------------------------------------------------------------- reading

  /** What has been read: the tree's nodes, and which of them is the first section. */
  datatype State = State(nodes: seq<Node>, first: Option<nat>) {
    predicate Valid() { first.Some? ==> first.value < |nodes| }
  }

  /** Where entries go: into the last section, or before the first into the tree itself. */
  function Container(st: State): seq<Node>
    requires st.Valid()
  {
    if st.first.Some? then st.nodes[|st.nodes| - 1].tree.children else st.nodes
  }

  function Push(st: State, es: seq<Node>): (st': State)
    requires st.Valid()
    ensures st'.Valid() && st'.first == st.first && Container(st') == Container(st) + es
  {
    if st.first.Some? then
      var last := st.nodes[|st.nodes| - 1];
      var grown := last.(tree := last.tree.(children := last.tree.children + es));
      st.(nodes := st.nodes[..|st.nodes| - 1] + [grown])
    else st.(nodes := st.nodes + es)
  }

  function Open(st: State, key: string): (st': State)
    requires st.Valid()
    ensures st'.Valid()
  {
    State(st.nodes + [Leaf(key, "")], if st.first.Some? then st.first else Some(|st.nodes|))
  }

  /** One line; `eof` says that the text ends with it. */
  function ReadLine(st: State, full: string, eof: bool, lineNo: nat): (r: Result<State>)
    requires st.Valid()
    ensures r.Ok? ==> r.value.Valid()
  {
    var line := Trim(full);
    if line != "" && line[0] == '[' then
      var end := Find(line, ']');
      if end == |line| then Err(UnmatchedBracket, lineNo)
      else
        var key := Trim(line[1..end]);
        if HasKey(st.nodes, key) then Err(DuplicateSection, lineNo) else Ok(Open(st, key))
    else if line == "" && eof then Ok(st)
    else if line == "" || line[0] == ';' || line[0] == '#' then Ok(Push(st, [Leaf(";", full)]))
    else
      var eq := Find(line, '=');
      if eq == |line| then Err(EqualsNotFound, lineNo)
      else if eq == 0 then Err(KeyExpected, lineNo)
      else
        var key, data := Trim(line[..eq]), Trim(line[eq + 1..]);
        if HasKey(Container(st), key) then Err(DuplicateKey, lineNo) else Ok(Push(st, [Leaf(key, data)]))
  }

  /** The lines of the text, one after the other; the last is what follows the last line end. */
  function ReadFrom(st: State, text: string, lineNo: nat): (r: Result<State>)
    requires st.Valid()
    ensures r.Ok? ==> r.value.Valid()
    decreases |text|
  {
    var i := Find(text, '\n');
    var r := ReadLine(st, text[..i], i == |text|, lineNo);
    if r.Err? || i == |text| then r else ReadFrom(r.value, text[i + 1..], lineNo + 1)
  }

  const Blank := State([], None)

  /** read_ini_ex: getline until the stream ends, each line put into the tree. */
  method ReadIni(text: string) returns (r: Result<Tree>)
    ensures var spec := ReadFrom(Blank, text, 1);
      r == if spec.Ok? then Ok(Tree("", spec.value.nodes)) else Err(spec.error, spec.line)
  {
    hide ReadLine;
    var st := Blank;
    var rest := text;
    var lineNo: nat := 0;
    var good := true;
    while good
      invariant st.Valid()
      invariant if good then ReadFrom(st, rest, lineNo + 1) == ReadFrom(Blank, text, 1) else ReadFrom(Blank, text, 1) == Ok(st)
      decreases good, |rest|
    {
      lineNo := lineNo + 1;
      var i := Find(rest, '\n');
      good := i < |rest|;
      var step := ReadLine(st, rest[..i], !good, lineNo);
      if step.Err? { return Err(step.error, step.line); }
      st := step.value;
      if good { rest := rest[i + 1..]; }
    }
    r := Ok(Tree("", st.nodes));
  }

  // ---------------------------------------------------------------- what a read tree looks like

  predicate PlainKey(k: string) {
    Tight(k) && k != "" && k[0] !in {'[', ';', '#'} && '=' !in k && '\n' !in k
  }

  predicate PlainData(d: string) { Tight(d) && '\n' !in d }

  predicate PlainComment(d: string) {
    '\n' !in d && var t := Trim(d); t == "" || t[0] == ';' || t[0] == '#'
  }

  /** An entry that can be written as a line and be told from it. */
  predicate Plain(n: Node) {
    n.tree.children == [] &&
    if n.key == ";" then PlainComment(n.tree.data) else PlainKey(n.key) && PlainData(n.tree.data)
  }

  predicate SectionName(k: string) { Tight(k) && ']' !in k && '\n' !in k }

  /** Only comments share a key. */
  predicate Unique(nodes: seq<Node>) {
    forall i, j | 0 <= i < j < |nodes| && nodes[i].key == nodes[j].key :: nodes[i].key == ";"
  }

  predicate IsSection(n: Node) {
    && SectionName(n.key) && n.tree.data == "" && Unique(n.tree.children)
    && forall e | e in n.tree.children :: Plain(e)
  }

  /** How many nodes come before the first section. */
  function Roots(st: State): nat { if st.first.Some? then st.first.value else |st.nodes| }

  predicate Shape(st: State) {
    && st.Valid() && Unique(st.nodes)
    && (forall i | 0 <= i < Roots(st) :: Plain(st.nodes[i]))
    && (forall i | Roots(st) <= i < |st.nodes| :: IsSection(st.nodes[i]))
    && (forall i | Roots(st) <= i < |st.nodes| :: !HasKey(st.nodes[..i], st.nodes[i].key))
  }

  lemma UniqueAppend(nodes: seq<Node>, n: Node)
    requires Unique(nodes) && (n.key == ";" || !HasKey(nodes, n.key))
    ensures Unique(nodes + [n])
  {
  }

  lemma SectionGrows(s: Node, n: Node)
    requires IsSection(s) && Plain(n) && (n.key == ";" || !HasKey(s.tree.children, n.key))
    ensures IsSection(s.(tree := s.tree.(children := s.tree.children + [n])))
  {
    hide Plain, SectionName, HasKey, Unique;
    UniqueAppend(s.tree.children, n);
  }

  lemma UniqueByKeys(a: seq<Node>, b: seq<Node>)
    requires Unique(a) && |a| == |b| && forall i | 0 <= i < |a| :: b[i].key == a[i].key
    ensures Unique(b)
  {
  }

  lemma PushKeepsShape(st: State, n: Node)
    requires Shape(st) && Plain(n) && (n.key == ";" || !HasKey(Container(st), n.key))
    ensures Shape(Push(st, [n]))
  {
    hide Plain, IsSection, HasKey, Unique;
    var st' := Push(st, [n]);
    if st.first.Some? {
      var l := |st.nodes| - 1;
      SectionGrows(st.nodes[l], n);
      assert st'.nodes[..l] == st.nodes[..l];
      UniqueByKeys(st.nodes, st'.nodes);
      forall i | Roots(st) <= i <= l ensures !HasKey(st'.nodes[..i], st'.nodes[i].key) {
        assert st'.nodes[..i] == st.nodes[..i];
      }
    } else {
      UniqueAppend(st.nodes, n);
    }
  }

  lemma OpenKeepsShape(st: State, key: string)
    requires Shape(st) && SectionName(key) && !HasKey(st.nodes, key)
    ensures Shape(Open(st, key))
  {
    var st' := Open(st, key);
    UniqueAppend(st.nodes, Leaf(key, ""));
    forall i | Roots(st') <= i < |st'.nodes| ensures !HasKey(st'.nodes[..i], st'.nodes[i].key) && IsSection(st'.nodes[i]) {
      assert st'.nodes[..i] == st.nodes[..i];
      if i == |st.nodes| { assert st.nodes[..i] == st.nodes; }
    }
  }

  /** The entry made of a line with an equals sign. */
  lemma EntryIsPlain(full: string, eq: nat)
    requires '\n' !in full
    requires var line := Trim(full); line != "" && line[0] !in {'[', ';', '#'} && eq == Find(line, '=') && 0 < eq < |line|
    ensures var line := Trim(full); Plain(Leaf(Trim(line[..eq]), Trim(line[eq + 1..]))) && Trim(line[..eq]) != ";"
  {
    var line := Trim(full);
    TrimTrims(full);
    var left := line[..eq];
    TrimTrims(left);
    TrimTrims(line[eq + 1..]);
    assert TrimStart(left) == left;
    TrimEndKeepsFirst(left);
  }

  lemma {:induction false} TrimEndKeepsFirst(s: string)
    requires s != "" && !IsSpace(s[0])
    ensures TrimEnd(s) != "" && TrimEnd(s)[0] == s[0]
    decreases |s|
  {
    if IsSpace(s[|s| - 1]) { TrimEndKeepsFirst(s[..|s| - 1]); }
  }

  lemma NameIsSectionName(full: string, end: nat)
    requires '\n' !in full && 0 < end == Find(Trim(full), ']') < |Trim(full)|
    ensures SectionName(Trim(Trim(full)[1..end]))
  {
    var line := Trim(full);
    TrimTrims(full);
    TrimTrims(line[1..end]);
    forall c | c in line[1..end] ensures c in line[..end] {}
  }

  lemma LineKeepsShape(st: State, full: string, eof: bool, lineNo: nat)
    requires Shape(st) && '\n' !in full && ReadLine(st, full, eof, lineNo).Ok?
    ensures Shape(ReadLine(st, full, eof, lineNo).value)
  {
    var line := Trim(full);
    if line != "" && line[0] == '[' {
      var end := Find(line, ']');
      NameIsSectionName(full, end);
      OpenKeepsShape(st, Trim(line[1..end]));
    } else if line == "" && eof {
    } else if line == "" || line[0] == ';' || line[0] == '#' {
      PushKeepsShape(st, Leaf(";", full));
    } else {
      var eq := Find(line, '=');
      EntryIsPlain(full, eq);
      PushKeepsShape(st, Leaf(Trim(line[..eq]), Trim(line[eq + 1..])));
    }
  }

  lemma {:induction false} ReadingKeepsShape(st: State, text: string, lineNo: nat)
    requires Shape(st) && ReadFrom(st, text, lineNo).Ok?
    ensures Shape(ReadFrom(st, text, lineNo).value)
    decreases |text|
  {
    var i := Find(text, '\n');
    LineKeepsShape(st, text[..i], i == |text|, lineNo);
    if i < |text| {
      ReadingKeepsShape(ReadLine(st, text[..i], false, lineNo).value, text[i + 1..], lineNo + 1);
    }
  }
}
