/** The reference-counted node store of libdevcore/MemoryDB.cpp. */
module MemoryDb {
  import opened Astray
  import opened Bytes
  import opened Items

  datatype Entry = Entry(value: Item, refs: nat)

  type Table = map<Hash, Entry>

  /** How many references to `h` are counted; an absent entry has none. */
  function Refs(m: Table, h: Hash): nat {
    if h in m then m[h].refs else 0
  }

  /** Every entry holds the node its hash belongs to. */
  ghost predicate Coherent(m: Table) {
    forall h :: h in m ==> m[h].value == h.of
  }

  /** The hashes under which a lookup finds something. */
  function Visible(m: Table, enforced: bool): set<Hash> {
    set h | h in m && (enforced ==> m[h].refs > 0)
  }

  /** The names that a lookup sees, where `named` says which hash 32 bytes stand for. */
  ghost function NamesSeen(m: Table, enforced: bool, named: Bytes -> Hash): Names {
    Names(named, Visible(m, enforced))
  }

  /** These are the names in a store, or some of them while references are enforced. */
  ghost predicate Among(m: Table, enforced: bool, named: Bytes -> Hash, names: Names) {
    names.named == named && if enforced then names.seen <= m.Keys else names.seen == m.Keys
  }

  /** Counting up and down changes no names. */
  lemma SeenAreNames(m: Table, m': Table, enforced: bool, named: Bytes -> Hash)
    requires m.Keys == m'.Keys
    ensures Among(m, enforced, named, NamesSeen(m', enforced, named))
  {
    assert !enforced ==> Visible(m', enforced) == m'.Keys;
    assert Visible(m', enforced) <= m'.Keys;
  }

  class MemoryDb {
    var main: Table
    var enforceRefs: bool

    constructor ()
      ensures main == map[] && !enforceRefs
    {
      main := map[];
      enforceRefs := false;
    }

    /** Absent, or no longer referenced while references are enforced: nothing. */
    method Lookup(h: Hash) returns (r: Option<Item>)
      ensures r == if h in main && (enforceRefs ==> main[h].refs > 0) then Some(main[h].value) else None
    {
      if h in main {
        if !enforceRefs || main[h].refs > 0 { return Some(main[h].value); }
      }
      return None;
    }

    method Exists(h: Hash) returns (r: bool)
      ensures r <==> h in main && (enforceRefs ==> main[h].refs > 0)
    {
      r := h in main && (!enforceRefs || main[h].refs > 0);
    }

    /** One more reference to `h`; the value is overwritten. */
    method Insert(h: Hash, v: Item)
      modifies this`main
      ensures main == old(main)[h := Entry(v, Refs(old(main), h) + 1)]
    {
      if h in main {
        main := main[h := Entry(v, main[h].refs + 1)];
      } else {
        main := main[h := Entry(v, 1)];
      }
    }

    /** One reference to `h` fewer, if there is one; the entry itself stays. */
    method Kill(h: Hash) returns (killed: bool)
      modifies this`main
      ensures killed <==> Refs(old(main), h) > 0
      ensures main == if killed then old(main)[h := Entry(old(main)[h].value, Refs(old(main), h) - 1)] else old(main)
    {
      if h in main {
        if main[h].refs > 0 {
          main := main[h := Entry(main[h].value, main[h].refs - 1)];
          return true;
        }
      }
      return false;
    }

    /** Erases the entries without references. */
    method Purge()
      modifies this`main
      ensures main == map h | h in old(main) && old(main)[h].refs != 0 :: old(main)[h]
    {
      var todo := main.Keys;
      ghost var was := main;
      while todo != {}
        invariant todo <= was.Keys
        invariant main == map h | h in was && (h in todo || was[h].refs != 0) :: was[h]
        decreases todo
      {
        var h :| h in todo;
        assert h in main && main[h] == was[h];
        if main[h].refs == 0 {
          main := map g | g in main && g != h :: main[g];
        }
        todo := todo - {h};
      }
    }

    /** The hashes that are referenced. */
    method Keys() returns (ret: set<Hash>)
      ensures ret == set h | h in main && main[h].refs != 0
    {
      ret := {};
      var todo := main.Keys;
      while todo != {}
        invariant todo <= main.Keys
        invariant ret == set h | h in main && h !in todo && main[h].refs != 0
        decreases todo
      {
        var h :| h in todo;
        if main[h].refs != 0 { ret := ret + {h}; }
        todo := todo - {h};
      }
    }
  }
}
