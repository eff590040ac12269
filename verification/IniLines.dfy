/**
  What the INI reader makes of a text, said of its lines: which line is refused and why, and the tree
  that a text without such a line stands for.
 */
module IniLines {
  import opened Bytes
  import opened Ini
  import opened IniText

  // ---------------------------------------------------------------- lines

  /** The lines of a text; the last is what follows the last line end. */
  function Lines(text: string): (lines: seq<string>)
    ensures lines != []
    decreases |text|
  {
    var i := Find(text, '\n');
    if i == |text| then [text] else [text[..i]] + Lines(text[i + 1..])
  }

  function Joined(lines: seq<string>): string
    requires lines != []
  {
    if |lines| == 1 then lines[0] else lines[0] + "\n" + Joined(lines[1..])
  }

  /** Lines have no line end in them, and put together with line ends between they are the text. */
  lemma {:induction false} LinesOfText(text: string)
    ensures Joined(Lines(text)) == text && forall l | l in Lines(text) :: '\n' !in l
    decreases |text|
  {
    var i := Find(text, '\n');
    NotFound(text, '\n');
    if i < |text| {
      LinesOfText(text[i + 1..]);
      assert text == text[..i] + "\n" + text[i + 1..];
    }
  }

  /** The last line counts only if something is on it. */
  function Kept(lines: seq<string>): seq<string>
    requires lines != []
  {
    if Trim(lines[|lines| - 1]) == "" then lines[..|lines| - 1] else lines
  }

  // ---------------------------------------------------------------- kinds of lines

  predicate IsBracket(l: string) { Trim(l) != "" && Trim(l)[0] == '[' }

  predicate IsRemark(l: string) { Trim(l) == "" || Trim(l)[0] == ';' || Trim(l)[0] == '#' }

  /** What stands between the bracket and the first closing one. */
  function NameOn(l: string): string
    requires IsBracket(l)
  {
    var t := Trim(l);
    if ']' in t then Trim(t[1..Find(t, ']')]) else ""
  }

  /** Before and behind the first equals sign; a remark goes whole under the key ";". */
  function EntryOn(l: string): Node {
    var t := Trim(l);
    if IsRemark(l) then Leaf(";", l)
    else Leaf(Trim(t[..Find(t, '=')]), if '=' in t then Trim(t[Find(t, '=') + 1..]) else "")
  }

  /** The first line of the section that line `n` is in, and the line behind its bracket. */
  function SectionStart(lines: seq<string>, n: nat): (i: nat)
    requires n <= |lines|
    ensures i <= n
  {
    if n == 0 then 0 else if IsBracket(lines[n - 1]) then n else SectionStart(lines, n - 1)
  }

  /** The lines before the first bracket. */
  function Roots(lines: seq<string>): (i: nat)
    ensures i <= |lines| && (forall j | 0 <= j < i :: !IsBracket(lines[j])) && (i < |lines| ==> IsBracket(lines[i]))
  {
    if lines == [] || IsBracket(lines[0]) then 0 else 1 + Roots(lines[1..])
  }

  /** Line `i` has put the name or key `key` beside the sections. */
  predicate Names(lines: seq<string>, i: nat, key: string)
    requires i < |lines|
  {
    if IsBracket(lines[i]) then NameOn(lines[i]) == key else i < Roots(lines) && EntryOn(lines[i]).key == key
  }

  /** What is wrong with line `n`, given the lines before it. */
  ghost function Fault(lines: seq<string>, n: nat): Option<Error>
    requires n < |lines|
  {
    var l, t := lines[n], Trim(lines[n]);
    if IsBracket(l) then
      if ']' !in t then Some(UnmatchedBracket)
      else if exists i: nat :: i < n && Names(lines, i, NameOn(l)) then Some(DuplicateSection)
      else None
    else if IsRemark(l) then None
    else if '=' !in t then Some(EqualsNotFound)
    else if t[0] == '=' then Some(KeyExpected)
    else if exists i :: SectionStart(lines, n) <= i < n && EntryOn(lines[i]).key == EntryOn(l).key then Some(DuplicateKey)
    else None
  }

  // ---------------------------------------------------------------- the tree of the lines

  function Entries(lines: seq<string>): (e: seq<Node>)
    ensures |e| == |lines| && forall i | 0 <= i < |lines| :: e[i] == EntryOn(lines[i])
  {
    seq(|lines|, i requires 0 <= i < |lines| => EntryOn(lines[i]))
  }

  function Sections(lines: seq<string>): seq<Node>
    requires lines != [] ==> IsBracket(lines[0])
    decreases |lines|
  {
    if lines == [] then []
    else
      var end := 1 + Roots(lines[1..]);
      [Node(NameOn(lines[0]), Tree("", Entries(lines[1..end])))] + Sections(lines[end..])
  }

  /** The entries before the first bracket, then a node with its entries for each bracket. */
  function TreeOf(lines: seq<string>): seq<Node> {
    Entries(lines[..Roots(lines)]) + Sections(lines[Roots(lines)..])
  }

  /** Where the first section ends. */
  function HeadEnd(lines: seq<string>): (end: nat)
    requires lines != []
    ensures 1 <= end <= |lines| && (end < |lines| ==> IsBracket(lines[end]))
  {
    1 + Roots(lines[1..])
  }

  function Head(lines: seq<string>, end: nat): Node
    requires 1 <= end <= |lines| && IsBracket(lines[0])
  {
    Node(NameOn(lines[0]), Tree("", Entries(lines[1..end])))
  }

  lemma SectionsAre(lines: seq<string>)
    requires lines != [] && IsBracket(lines[0])
    ensures Sections(lines) == [Head(lines, HeadEnd(lines))] + Sections(lines[HeadEnd(lines)..])
  {
    hide IsBracket, NameOn, Entries, Roots, EntryOn;
  }

  lemma {:induction false} RootsOfMore(lines: seq<string>, l: string)
    ensures Roots(lines + [l]) == if Roots(lines) == |lines| && !IsBracket(l) then |lines| + 1 else Roots(lines)
  {
    hide IsBracket;
    var more := lines + [l];
    if lines == [] {
      assert more[1..] == [];
    } else if !IsBracket(lines[0]) {
      assert more[1..] == lines[1..] + [l];
      RootsOfMore(lines[1..], l);
    }
  }

  lemma HeadOfMore(lines: seq<string>, l: string)
    requires lines != [] && IsBracket(lines[0])
    ensures var end, more := HeadEnd(lines), lines + [l];
      if end == |lines| && !IsBracket(l) then
        HeadEnd(more) == end + 1 && more[end + 1..] == [] && lines[end..] == []
        && Head(more, end + 1) == Head(lines, end).(tree := Tree("", Head(lines, end).tree.children + [EntryOn(l)]))
      else
        HeadEnd(more) == end && more[end..] == lines[end..] + [l] && Head(more, end) == Head(lines, end)
  {
    hide IsBracket, NameOn, EntryOn;
    var end, more := HeadEnd(lines), lines + [l];
    assert more[1..] == lines[1..] + [l];
    RootsOfMore(lines[1..], l);
    if end == |lines| && !IsBracket(l) {
      assert more[1..end + 1] == lines[1..end] + [l];
      assert Entries(lines[1..end] + [l]) == Entries(lines[1..end]) + [EntryOn(l)];
    } else {
      assert more[1..end] == lines[1..end];
    }
  }

  /** One more bracket opens an empty section. */
  lemma {:induction false} SectionsOpen(lines: seq<string>, l: string)
    requires (lines != [] ==> IsBracket(lines[0])) && IsBracket(l)
    ensures Sections(lines + [l]) == Sections(lines) + [Node(NameOn(l), Tree("", []))]
    decreases |lines|
  {
    hide IsBracket, NameOn, EntryOn, Sections, HeadEnd, Head;
    var more := lines + [l];
    if lines == [] {
      OneSection(l);
      assert more == [l];
    } else {
      SectionsAre(lines);
      SectionsAre(more);
      HeadOfMore(lines, l);
      SectionsOpen(lines[HeadEnd(lines)..], l);
    }
  }

  lemma OneSection(l: string)
    requires IsBracket(l)
    ensures Sections([l]) == [Node(NameOn(l), Tree("", []))] && Sections([]) == []
  {
    hide IsBracket, NameOn;
    SectionsAre([l]);
    NoSections();
    assert [l][1..1] == [] && [l][1..] == [] && Entries([]) == [];
  }

  /** The last section with one more entry. */
  function Grown(nodes: seq<Node>, e: Node): seq<Node>
    requires nodes != []
  {
    var last := nodes[|nodes| - 1];
    nodes[..|nodes| - 1] + [last.(tree := last.tree.(children := last.tree.children + [e]))]
  }

  lemma {:induction false} SectionsGrow(lines: seq<string>, l: string)
    requires lines != [] && IsBracket(lines[0]) && !IsBracket(l)
    ensures Sections(lines) != [] && Sections(lines + [l]) == Grown(Sections(lines), EntryOn(l))
    decreases |lines|
  {
    hide IsBracket, NameOn, EntryOn, Sections, HeadEnd, Entries;
    var more, end := lines + [l], HeadEnd(lines);
    SectionsAre(lines);
    SectionsAre(more);
    HeadOfMore(lines, l);
    if end == |lines| {
      NoSections();
      assert Sections(lines) == [Head(lines, end)];
    } else {
      SectionsGrow(lines[end..], l);
      GrownBehind([Head(lines, end)], Sections(lines[end..]), EntryOn(l));
    }
  }

  lemma TreeParts(lines: seq<string>, f: nat)
    requires f == Roots(lines)
    ensures TreeOf(lines) == Entries(lines[..f]) + Sections(lines[f..])
  {
  }

  lemma TreeOpens(lines: seq<string>, l: string)
    requires IsBracket(l)
    ensures TreeOf(lines + [l]) == TreeOf(lines) + [Node(NameOn(l), Tree("", []))]
  {
    hide IsBracket, NameOn, EntryOn, Sections, Roots, Entries, TreeOf;
    var more, f := lines + [l], Roots(lines);
    RootsOfMore(lines, l);
    TreeParts(lines, f);
    TreeParts(more, f);
    assert more[..f] == lines[..f] && more[f..] == lines[f..] + [l];
    SectionsOpen(lines[f..], l);
  }

  lemma RootsOnly(lines: seq<string>)
    requires Roots(lines) == |lines|
    ensures TreeOf(lines) == Entries(lines)
  {
    hide IsBracket, EntryOn, Roots, Entries;
    assert lines[..|lines|] == lines && lines[|lines|..] == [];
  }

  lemma TreeStarts(lines: seq<string>, l: string)
    requires !IsBracket(l) && Roots(lines) == |lines|
    ensures TreeOf(lines + [l]) == TreeOf(lines) + [EntryOn(l)]
  {
    hide IsBracket, NameOn, EntryOn, Sections, Roots, TreeOf, Entries;
    RootsOfMore(lines, l);
    RootsOnly(lines);
    RootsOnly(lines + [l]);
    EntriesAppend(lines, l);
  }

  lemma EntriesAppend(lines: seq<string>, l: string)
    ensures Entries(lines + [l]) == Entries(lines) + [EntryOn(l)]
  {
    hide EntryOn;
  }

  lemma TreeGrows(lines: seq<string>, l: string)
    requires !IsBracket(l) && Roots(lines) < |lines|
    ensures TreeOf(lines) != [] && TreeOf(lines + [l]) == Grown(TreeOf(lines), EntryOn(l))
  {
    hide IsBracket, NameOn, EntryOn, Sections, Roots, Entries, Grown, TreeOf;
    var more, f := lines + [l], Roots(lines);
    RootsOfMore(lines, l);
    TreeParts(lines, f);
    TreeParts(more, f);
    assert more[..f] == lines[..f] && more[f..] == lines[f..] + [l];
    SectionsGrow(lines[f..], l);
    GrownBehind(Entries(lines[..f]), Sections(lines[f..]), EntryOn(l));
  }

  lemma NoSections()
    ensures Sections([]) == []
  {
  }

  lemma GrownBehind(a: seq<Node>, b: seq<Node>, e: Node)
    requires b != []
    ensures Grown(a + b, e) == a + Grown(b, e)
  {
    assert (a + b)[..|a + b| - 1] == a + b[..|b| - 1];
  }

  // ---------------------------------------------------------------- reading line by line

  /** What has been read when `n` lines have, none of them at fault. */
  ghost predicate Reflects(lines: seq<string>, n: nat, st: State)
    requires n <= |lines|
  {
    && st.Valid() && st.nodes == TreeOf(lines[..n])
    && (st.first.None? <==> Roots(lines[..n]) == n)
    && Container(st) == Entries(lines[SectionStart(lines, n)..n])
    && forall key :: HasKey(st.nodes, key) <==> exists i: nat :: i < n && Names(lines, i, key)
  }

  lemma NothingRead(lines: seq<string>)
    ensures Reflects(lines, 0, Blank)
  {
    assert lines[..0] == [] && lines[0..0] == [];
  }

  lemma KeysOfMore(nodes: seq<Node>, n: Node, key: string)
    ensures HasKey(nodes + [n], key) <==> HasKey(nodes, key) || n.key == key
  {
    if i :| 0 <= i < |nodes| && nodes[i].key == key { assert (nodes + [n])[i].key == key; }
    assert (nodes + [n])[|nodes|] == n;
  }

  lemma KeysOfGrown(nodes: seq<Node>, e: Node, key: string)
    requires nodes != []
    ensures HasKey(Grown(nodes, e), key) <==> HasKey(nodes, key)
  {
    assert forall i | 0 <= i < |nodes| :: Grown(nodes, e)[i].key == nodes[i].key;
  }

  /** The lines before `n` name what they did, and line `n` its own name. */
  lemma NamesOfMore(lines: seq<string>, n: nat, key: string)
    requires n < |lines|
    ensures (exists i: nat :: i < n + 1 && Names(lines, i, key)) <==> (exists i: nat :: i < n && Names(lines, i, key)) || Names(lines, n, key)
  {
  }

  /** The first bracket is where it is, seen from the lines before `n` or from all. */
  lemma RootsBefore(lines: seq<string>, n: nat)
    requires n <= |lines|
    ensures Roots(lines[..n]) == if Roots(lines) < n then Roots(lines) else n
  {
    var a, b := Roots(lines[..n]), Roots(lines);
    if a < n { assert lines[..n][a] == lines[a]; }
    if b < n { assert lines[..n][b] == lines[b]; }
  }

  lemma OpenReflects(lines: seq<string>, n: nat, st: State)
    requires n < |lines| && Reflects(lines, n, st) && IsBracket(lines[n])
    ensures Reflects(lines, n + 1, Open(st, NameOn(lines[n])))
  {
    hide IsBracket, NameOn, EntryOn, TreeOf, Roots, Names, HasKey;
    var l, name := lines[n], NameOn(lines[n]);
    var st' := Open(st, name);
    assert lines[..n + 1] == lines[..n] + [l];
    TreeOpens(lines[..n], l);
    RootsOfMore(lines[..n], l);
    assert lines[n + 1..n + 1] == [];
    forall key ensures HasKey(st'.nodes, key) <==> exists i: nat :: i < n + 1 && Names(lines, i, key) {
      KeysOfMore(st.nodes, Leaf(name, ""), key);
      NamesOfMore(lines, n, key);
      NamesBracket(lines, n, key);
    }
  }

  lemma NamesBracket(lines: seq<string>, n: nat, key: string)
    requires n < |lines|
    ensures IsBracket(lines[n]) ==> (Names(lines, n, key) <==> NameOn(lines[n]) == key)
    ensures !IsBracket(lines[n]) ==> (Names(lines, n, key) <==> n < Roots(lines) && EntryOn(lines[n]).key == key)
  {
  }

  lemma PushReflects(lines: seq<string>, n: nat, st: State)
    requires n < |lines| && Reflects(lines, n, st) && !IsBracket(lines[n])
    ensures Reflects(lines, n + 1, Push(st, [EntryOn(lines[n])]))
  {
    hide IsBracket, NameOn, EntryOn, TreeOf, Roots, Names, HasKey, Grown;
    var l, e := lines[n], EntryOn(lines[n]);
    var st' := Push(st, [e]);
    assert lines[..n + 1] == lines[..n] + [l];
    RootsOfMore(lines[..n], l);
    RootsBefore(lines, n);
    var start := SectionStart(lines, n);
    EntriesOfMore(lines, start, n);
    if st.first.None? {
      TreeStarts(lines[..n], l);
    } else {
      TreeGrows(lines[..n], l);
      PushIsGrown(st, e);
    }
    forall key ensures HasKey(st'.nodes, key) <==> exists i: nat :: i < n + 1 && Names(lines, i, key) {
      NamesOfMore(lines, n, key);
      NamesBracket(lines, n, key);
      if st.first.None? { KeysOfMore(st.nodes, e, key); } else { KeysOfGrown(st.nodes, e, key); }
      RootsBracket(lines, n);
    }
  }

  lemma RootsBracket(lines: seq<string>, n: nat)
    requires n < |lines| && !IsBracket(lines[n])
    ensures Roots(lines) != n
  {
  }

  lemma EntriesOfMore(lines: seq<string>, start: nat, n: nat)
    requires start <= n < |lines|
    ensures Entries(lines[start..n + 1]) == Entries(lines[start..n]) + [EntryOn(lines[n])]
  {
    hide EntryOn;
    assert lines[start..n + 1] == lines[start..n] + [lines[n]];
  }

  lemma PushIsGrown(st: State, e: Node)
    requires st.Valid() && st.first.Some?
    ensures Push(st, [e]).nodes == Grown(st.nodes, e)
  {
  }

  /** A line is refused exactly if it is at fault, and else does to the tree what it stands for. */
  lemma LineIsRead(lines: seq<string>, n: nat, st: State, eof: bool, lineNo: nat)
    requires n < |lines| && Reflects(lines, n, st) && !(eof && Trim(lines[n]) == "")
    ensures var r := ReadLine(st, lines[n], eof, lineNo);
      match Fault(lines, n)
      case Some(e) => r == Err(e, lineNo)
      case None => r.Ok? && Reflects(lines, n + 1, r.value)
  {
    hide TreeOf, Roots, Names;
    var l, t := lines[n], Trim(lines[n]);
    if IsBracket(l) {
      NotFound(t, ']');
      assert ']' in t ==> NameOn(l) == Trim(t[1..Find(t, ']')]);
      OpenReflects(lines, n, st);
    } else {
      if !IsRemark(l) { NotFound(t, '='); EntryKeys(lines, n, st, EntryOn(l).key); FirstIsFound(t); }
      PushReflects(lines, n, st);
    }
  }

  lemma FirstIsFound(t: string)
    requires t != ""
    ensures Find(t, '=') == 0 <==> t[0] == '='
  {
    var i := Find(t, '=');
    assert i > 0 ==> t[..i][0] == t[0];
  }

  lemma EntryKeys(lines: seq<string>, n: nat, st: State, key: string)
    requires n < |lines| && Reflects(lines, n, st)
    ensures HasKey(Container(st), key) <==> exists i :: SectionStart(lines, n) <= i < n && EntryOn(lines[i]).key == key
  {
    hide EntryOn, TreeOf, Roots, Names;
    var start := SectionStart(lines, n);
    var e := Entries(lines[start..n]);
    if i :| start <= i < n && EntryOn(lines[i]).key == key { assert e[i - start].key == key; }
    if j :| 0 <= j < |e| && e[j].key == key { assert EntryOn(lines[start + j]).key == key; }
  }

  /** Reading from line `n` on. */
  lemma {:induction false} RestIsRead(all: seq<string>, n: nat, st: State, text: string)
    requires n < |all| && Lines(text) == all[n..] && n <= |Kept(all)| && st.Valid() && Reflects(Kept(all), n, st)
    ensures var r, lines := ReadFrom(st, text, n + 1), Kept(all);
      if r.Ok? then
        Reflects(lines, |lines|, r.value) && forall m: nat | n <= m < |lines| :: Fault(lines, m).None?
      else
        && n < r.line <= |lines| && Fault(lines, r.line - 1) == Some(r.error)
        && forall m: nat | n <= m < r.line - 1 :: Fault(lines, m).None?
    decreases |text|
  {
    hide ReadLine, Fault, Reflects, Lines, Trim, Find;
    var lines := Kept(all);
    var i := Find(text, '\n');
    var eof := i == |text|;
    FirstLine(text);
    assert text[..i] == all[n] && (eof <==> n == |all| - 1);
    if eof && Trim(all[n]) == "" {
      BlankIsSkipped(st, all[n], n + 1);
    } else {
      assert n < |lines| && lines[n] == all[n];
      LineIsRead(lines, n, st, eof, n + 1);
      if Fault(lines, n).None? && !eof {
        assert Lines(text[i + 1..]) == all[n..][1..] == all[n + 1..];
        assert n + 1 <= |lines|;
        RestIsRead(all, n + 1, ReadLine(st, all[n], eof, n + 1).value, text[i + 1..]);
      }
    }
  }

  lemma FirstLine(text: string)
    ensures var i, lines := Find(text, '\n'), Lines(text);
      && lines[0] == text[..i] && (|lines| == 1 <==> i == |text|)
      && (i < |text| ==> lines[1..] == Lines(text[i + 1..]))
  {
  }

  lemma BlankIsSkipped(st: State, l: string, lineNo: nat)
    requires st.Valid() && Trim(l) == ""
    ensures ReadLine(st, l, true, lineNo) == Ok(st)
  {
  }

  /**
    A text is read if and only if none of its lines is at fault, and then as the tree of its lines;
    else the answer is the first fault and the number of its line, counted from one.
   */
  lemma ReadingLaw(text: string)
    ensures var r, lines := ReadFrom(Blank, text, 1), Kept(Lines(text));
      if r.Ok? then
        r.value.nodes == TreeOf(lines) && forall m: nat | m < |lines| :: Fault(lines, m).None?
      else
        && 0 < r.line <= |lines| && Fault(lines, r.line - 1) == Some(r.error)
        && forall m: nat | m < r.line - 1 :: Fault(lines, m).None?
  {
    hide ReadFrom, TreeOf, Fault;
    var all := Lines(text);
    assert all[0..] == all;
    NothingRead(Kept(all));
    RestIsRead(all, 0, Blank, text);
    assert Kept(all)[..|Kept(all)|] == Kept(all);
  }
}
