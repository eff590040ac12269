/** Characters, trimming and searching, as the INI reader uses them. */
module IniText {

  /** isspace of the classic locale. */
  predicate IsSpace(c: char) { c == ' ' || 9 <= c as int <= 13 }

  function TrimStart(s: string): string { if s != "" && IsSpace(s[0]) then TrimStart(s[1..]) else s }

  function TrimEnd(s: string): string {
    if s != "" && IsSpace(s[|s| - 1]) then TrimEnd(s[..|s| - 1]) else s
  }

  function Trim(s: string): string { TrimEnd(TrimStart(s)) }

  /** Neither begins nor ends with a space. */
  predicate Tight(s: string) { s != "" ==> !IsSpace(s[0]) && !IsSpace(s[|s| - 1]) }

  lemma {:induction false} TrimStartTrims(s: string)
    ensures var t := TrimStart(s); |t| <= |s| && t == s[|s| - |t|..] && (t != "" ==> !IsSpace(t[0]))
  {
    if s != "" && IsSpace(s[0]) { TrimStartTrims(s[1..]); }
  }

  lemma {:induction false} TrimEndTrims(s: string)
    ensures var t := TrimEnd(s); |t| <= |s| && t == s[..|t|] && (t != "" ==> !IsSpace(t[|t| - 1]))
  {
    if s != "" && IsSpace(s[|s| - 1]) { TrimEndTrims(s[..|s| - 1]); }
  }

  /** Trimming leaves something tight, made of characters of the original. */
  lemma TrimTrims(s: string)
    ensures Tight(Trim(s)) && forall c | c in Trim(s) :: c in s
  {
    TrimStartTrims(s);
    TrimEndTrims(TrimStart(s));
  }

  /** Space, tab, line feed, vertical tab, form feed and carriage return. */
  lemma SpacesAre(c: char)
    ensures IsSpace(c) <==> c as int in {9, 10, 11, 12, 13, 32}
  {
  }

  /** What is trimmed off is nothing but spaces. */
  lemma OnlySpacesGo(s: string) returns (before: string, after: string)
    ensures s == before + Trim(s) + after
    ensures (forall c | c in before :: IsSpace(c)) && forall c | c in after :: IsSpace(c)
  {
    before := SpacesBefore(s);
    after := SpacesAfter(TrimStart(s));
  }

  lemma {:induction false} SpacesBefore(s: string) returns (before: string)
    ensures s == before + TrimStart(s) && forall c | c in before :: IsSpace(c)
  {
    before := "";
    if s != "" && IsSpace(s[0]) {
      before := SpacesBefore(s[1..]);
      before := [s[0]] + before;
      assert s == [s[0]] + s[1..];
    }
  }

  lemma {:induction false} SpacesAfter(s: string) returns (after: string)
    ensures s == TrimEnd(s) + after && forall c | c in after :: IsSpace(c)
  {
    after := "";
    if s != "" && IsSpace(s[|s| - 1]) {
      after := SpacesAfter(s[..|s| - 1]);
      after := after + [s[|s| - 1]];
    }
  }

  lemma TightStays(s: string)
    requires Tight(s)
    ensures Trim(s) == s
  {
  }

  /** Where `c` first occurs, or the length. */
  function Find(s: string, c: char): (i: nat)
    ensures i <= |s| && c !in s[..i] && (i < |s| ==> s[i] == c)
  {
    if s == "" || s[0] == c then 0
    else
      var i := 1 + Find(s[1..], c);
      assert s[..i] == [s[0]] + s[1..][..i - 1];
      i
  }

  lemma FindAfter(a: string, c: char, b: string)
    requires c !in a
    ensures Find(a + [c] + b, c) == |a|
  {
    var s := a + [c] + b;
    var i := Find(s, c);
    assert s[|a|] == c;
    assert forall k | 0 <= k < |a| :: s[k] == a[k] && a[k] in a;
    assert forall k | 0 <= k < i :: s[k] in s[..i];
  }

  lemma NotFound(s: string, c: char)
    ensures Find(s, c) == |s| <==> c !in s
  {
    assert s[..|s|] == s;
  }
}
