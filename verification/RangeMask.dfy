/**
  libdevcore/RangeMask.h: a set of unsigned numbers inside a ground range, held as a map from
  the beginning of each interval to its end. The intervals neither overlap nor touch.
 */
module RangeMask {
  import opened Bytes

  /** Numbers are 32-bit; sums and differences wrap around. */
  const Modulus := 0x1_0000_0000

  type Ranges = map<nat, nat>

  /** `x` lies in one of the half-open intervals. */
  ghost predicate Holds(m: Ranges, x: int) {
    exists k :: k in m && k <= x < m[k]
  }

  /** Intervals are non-empty, inside the ground range, disjoint and not touching. */
  ghost predicate Canon(m: Ranges, lo: nat, hi: nat) {
    && (forall k | k in m :: lo <= k < m[k] <= hi)
    && (forall a, b | a in m && b in m && a < b :: m[a] < b)
  }

  /** The number of members below `x`. */
  ghost function Count(m: Ranges, x: nat): nat {
    if x == 0 then 0 else Count(m, x - 1) + if Holds(m, x - 1) then 1 else 0
  }

  lemma HoldsAt(m: Ranges, k: nat, x: int)
    requires k in m && k <= x < m[k]
    ensures Holds(m, x)
  {
  }

  lemma HoldsSingle(lo: nat, hi: nat, x: int)
    ensures Holds(map[lo := hi], x) <==> lo <= x < hi
  {
    if lo <= x < hi { HoldsAt(map[lo := hi], lo, x); }
  }

  /** What a map holds once a range is put in at a new key. */
  lemma HoldsUpdated(m: Ranges, k: nat, end: nat, x: int)
    requires k !in m
    ensures Holds(m[k := end], x) <==> Holds(m, x) || k <= x < end
  {
    var m' := m[k := end];
    if Holds(m, x) {
      var j :| j in m && j <= x < m[j];
      HoldsAt(m', j, x);
    }
    if k <= x < end { HoldsAt(m', k, x); }
    if Holds(m', x) && !(k <= x < end) {
      var j :| j in m' && j <= x < m'[j];
      HoldsAt(m, j, x);
    }
  }

  /** Over a stretch without members the count stays, over one of members it grows along. */
  lemma {:induction false} CountOver(m: Ranges, a: nat, b: nat, inside: bool)
    requires a <= b && forall x | a <= x < b :: Holds(m, x) == inside
    ensures Count(m, b) == Count(m, a) + if inside then b - a else 0
    decreases b
  {
    if a < b { CountOver(m, a, b - 1, inside); }
  }

  lemma {:induction false} CountMonotone(m: Ranges, a: nat, b: nat)
    requires a <= b
    ensures Count(m, a) <= Count(m, b) <= Count(m, a) + (b - a)
    decreases b
  {
    if a < b { CountMonotone(m, a, b - 1); }
  }

  /** Counting is cardinality. */
  lemma {:induction false} CountIsCardinality(m: Ranges, x: nat)
    ensures |set y: nat | y < x && Holds(m, y)| == Count(m, x)
  {
    hide Holds;
    if x > 0 {
      CountIsCardinality(m, x - 1);
      var below := set y: nat | y < x - 1 && Holds(m, y);
      var all := set y: nat | y < x && Holds(m, y);
      assert all == if Holds(m, x - 1) then below + {x - 1} else below;
    }
  }

  /** A range of a canonical mask begins and ends where the members do. */
  lemma RangeEnds(m: Ranges, lo: nat, hi: nat, k: nat)
    requires Canon(m, lo, hi) && k in m
    ensures !Holds(m, m[k]) && !Holds(m, k - 1)
  {
    forall j | j in m ensures !(j <= m[k] < m[j]) && !(j <= k - 1 < m[j]) {
      if j < k { assert m[j] < k; }
    }
  }

  /** Canonical masks with the same members are the same map. */
  lemma {:induction false} CanonIsUnique(a: Ranges, b: Ranges, lo: nat, hi: nat)
    requires Canon(a, lo, hi) && Canon(b, lo, hi) && forall x :: Holds(a, x) <==> Holds(b, x)
    ensures a == b
  {
    SameRange(a, b, lo, hi);
    SameRange(b, a, lo, hi);
  }

  lemma SameRange(a: Ranges, b: Ranges, lo: nat, hi: nat)
    requires Canon(a, lo, hi) && Canon(b, lo, hi) && forall x :: Holds(a, x) <==> Holds(b, x)
    ensures forall k | k in a :: k in b && a[k] == b[k]
  {
    forall k | k in a ensures k in b && a[k] == b[k] {
      assert Holds(a, k);
      var j :| j in b && j <= k < b[j];
      assert j < k ==> Holds(b, k - 1);
      assert a[k] < b[j] ==> Holds(b, a[k]);
      assert b[j] < a[k] ==> Holds(a, b[j]);
      RangeEnds(a, lo, hi, k);
      RangeEnds(b, lo, hi, j);
    }
  }

  // ---------------------------------------------------------------- the ordered map

  /** std::map::upper_bound: the least key greater than `i`. */
  method UpperBound(m: Ranges, i: int) returns (r: Option<nat>)
    ensures r.Some? ==> r.value in m && i < r.value && forall k | k in m && i < k :: r.value <= k
    ensures r.None? ==> forall k | k in m :: k <= i
  {
    r := None;
    var todo := m.Keys;
    while todo != {}
      invariant todo <= m.Keys
      invariant r.Some? ==> r.value in m && i < r.value && forall k | k in m && k !in todo && i < k :: r.value <= k
      invariant r.None? ==> forall k | k in m && k !in todo :: k <= i
      decreases todo
    {
      var k :| k in todo;
      if i < k && (r.None? || k < r.value) { r := Some(k); }
      todo := todo - {k};
    }
  }

  /** The last key not greater than `i`, found as the predecessor of the upper bound. */
  method LowerNeighbour(m: Ranges, i: int) returns (r: Option<nat>)
    ensures r.Some? ==> r.value in m && r.value <= i && forall k | k in m && k <= i :: k <= r.value
    ensures r.None? ==> forall k | k in m :: i < k
  {
    r := None;
    var todo := m.Keys;
    while todo != {}
      invariant todo <= m.Keys
      invariant r.Some? ==> r.value in m && r.value <= i && forall k | k in m && k !in todo && k <= i :: k <= r.value
      invariant r.None? ==> forall k | k in m && k !in todo :: i < k
      decreases todo
    {
      var k :| k in todo;
      if k <= i && (r.None? || r.value < k) { r := Some(k); }
      todo := todo - {k};
    }
  }

  /** `below` is the last range that begins at or before `i`, `after` the first behind it. */
  ghost predicate Neighbours(m: Ranges, i: int, below: Option<nat>, after: Option<nat>) {
    && (below.Some? ==> below.value in m && below.value <= i && forall k | k in m && k <= i :: k <= below.value)
    && (below.None? ==> forall k | k in m :: i < k)
    && (after.Some? ==> after.value in m && i < after.value && forall k | k in m && i < k :: after.value <= k)
    && (after.None? ==> forall k | k in m :: k <= i)
  }

  /** Nothing lies between neighbours. */
  lemma BetweenNeighbours(m: Ranges, lo: nat, hi: nat, i: int, below: Option<nat>, after: Option<nat>)
    requires Canon(m, lo, hi) && Neighbours(m, i, below, after)
    ensures forall x | i <= x && (after.Some? ==> x < after.value) ::
      Holds(m, x) <==> below.Some? && x < m[below.value]
    ensures below.Some? && after.Some? ==> m[below.value] < after.value
  {
    forall x | i <= x && (after.Some? ==> x < after.value)
      ensures Holds(m, x) <==> below.Some? && x < m[below.value]
    {
      forall k | k in m && k <= x < m[k] ensures k <= i {}
    }
  }

  class RangeMask {
    /** The ground range. */
    var lo: nat
    var hi: nat
    var ranges: Ranges

    ghost predicate Valid()
      reads this
    {
      lo <= hi < 0x1_0000_0000 && Canon(ranges, lo, hi)
    }

    ghost predicate In(x: int)
      reads this
    {
      Holds(ranges, x)
    }

    constructor (begin: nat, end: nat)
      requires begin <= end < 0x1_0000_0000
      ensures Valid() && lo == begin && hi == end && ranges == map[]
    {
      lo, hi, ranges := begin, end, map[];
    }

    // -------------------------------------------------------------- union

    /**
      One round of the union loop at position `i`: adds the range up to the next existing one, or
      to its end. A round that ends the loop answers `second`.
     */
    method UnionStep(i: nat, second: nat) returns (next: nat)
      requires Valid() && lo <= i < second <= hi
      modifies this`ranges
      ensures Valid() && i < next <= hi
      ensures forall x :: Holds(ranges, x) <==> Holds(old(ranges), x) || (i <= x < next && x < second)
      ensures forall x | i <= x < next :: Holds(ranges, x)
    {
      var after := UpperBound(ranges, i);
      var below := LowerNeighbour(ranges, i);
      ghost var was := ranges;
      BetweenNeighbours(ranges, lo, hi, i, below, after);
      if below.None? || ranges[below.value] < i {
        if after.None? || after.value > second {
          ranges := ranges[i := second];
          NewRange(was, ranges, lo, hi, i, second, below, after);
          next := second;
        } else {
          next := ranges[after.value];
          ranges := Merged(ranges, i, after.value);
          MergedIsCanon(was, lo, hi, i, after.value);
          MergedHolds(was, i, after.value, i);
        }
      } else if ranges[below.value] == i {
        if after.None? || after.value > second {
          ranges := ranges[below.value := second];
          GrownUp(was, ranges, lo, hi, i, second, below, after);
          next := second;
        } else {
          next := ranges[after.value];
          ranges := Merged(ranges, below.value, after.value);
          MergedIsCanon(was, lo, hi, below.value, after.value);
          MergedHolds(was, below.value, after.value, i);
        }
      } else {
        next := ranges[below.value];
        forall x | i <= x < next ensures Holds(ranges, x) { HoldsAt(ranges, below.value, x); }
      }
    }

    /** unionWith a range inside the ground range. */
    method UnionWith(first: nat, second: nat)
      requires Valid() && (first < second ==> lo <= first && second <= hi)
      modifies this`ranges
      ensures Valid() && forall x :: Holds(ranges, x) <==> Holds(old(ranges), x) || first <= x < second
    {
      var i := first;
      while i < second
        invariant Valid() && first <= i && (i == first || i <= hi)
        invariant forall x :: Holds(ranges, x) <==> Holds(old(ranges), x) || (first <= x < i && x < second)
        decreases second - i
      {
        i := UnionStep(i, second);
      }
    }

    /** unionWith another mask, whose ground range is taken in as well. */
    method UnionWithMask(m: RangeMask)
      requires Valid() && m.Valid()
      modifies this
      ensures Valid() && lo == Min(old(lo), old(m.lo)) && hi == Max(old(hi), old(m.hi))
      ensures forall x :: Holds(ranges, x) <==> Holds(old(ranges), x) || Holds(old(m.ranges), x)
    {
      var theirs := m.ranges;
      lo, hi := Min(m.lo, lo), Max(m.hi, hi);
      var todo := theirs.Keys;
      while todo != {}
        invariant todo <= theirs.Keys && Valid() && lo == Min(old(lo), old(m.lo)) && hi == Max(old(hi), old(m.hi))
        invariant forall x :: Holds(ranges, x) <==>
          Holds(old(ranges), x) || exists k :: k in theirs && k !in todo && k <= x < theirs[k]
        decreases todo
      {
        var k :| k in todo;
        ghost var was := ranges;
        UnionWith(k, theirs[k]);
        ghost var left := todo - {k};
        forall x ensures Holds(ranges, x) <==> Holds(old(ranges), x) || exists j :: j in theirs && j !in left && j <= x < theirs[j] {
          if k <= x < theirs[k] { assert k !in left; }
          assert Holds(ranges, x) <==> Holds(was, x) || k <= x < theirs[k];
        }
        todo := todo - {k};
      }
    }

    /** Adds one member of the ground range. */
    method Add(i: nat)
      requires Valid() && lo <= i < hi
      modifies this`ranges
      ensures Valid() && forall x :: Holds(ranges, x) <==> Holds(old(ranges), x) || x == i
    {
      UnionWith(i, (i + 1) % Modulus);
    }

    // -------------------------------------------------------------- complement and difference

    /** inverted: the complement in the ground range. */
    method Inverted() returns (ret: Ranges)
      requires Valid()
      ensures Canon(ret, lo, hi) && forall x :: Holds(ret, x) <==> lo <= x < hi && !In(x)
    {
      ret := map[];
      var last := lo;
      var i := UpperBound(ranges, -1);
      while i.Some?
        invariant Midway(ranges, ret, lo, hi, last) && FirstFrom(ranges, last, i)
        decreases hi - last, i.Some?
      {
        var k := i.value;
        ghost var was := ret;
        if k != last { ret := ret[last := k]; }
        ComplementStep(ranges, was, ret, lo, hi, last, k);
        last := ranges[k];
        i := UpperBound(ranges, k);
      }
      ghost var was := ret;
      if last != hi { ret := ret[last := hi]; }
      ComplementEnd(ranges, was, ret, lo, hi, last);
    }

    /** invert: the mask becomes its complement. */
    method Invert()
      requires Valid()
      modifies this`ranges
      ensures Valid() && forall x :: Holds(ranges, x) <==> lo <= x < hi && !Holds(old(ranges), x)
    {
      ranges := Inverted();
    }

    /** Inverting twice gives back the very same map. */
    method InvertTwice()
      requires Valid()
      modifies this`ranges
      ensures ranges == old(ranges)
    {
      Invert();
      Invert();
      CanonIsUnique(ranges, old(ranges), lo, hi);
    }

    /** operator-=: complement, union, complement. */
    method MinusAssign(m: RangeMask)
      requires Valid() && m.Valid() && m != this
      modifies this
      ensures Valid() && lo == Min(old(lo), m.lo) && hi == Max(old(hi), m.hi)
      ensures forall x :: Holds(ranges, x) <==> Difference(old(lo), old(hi), old(ranges), m.lo, m.hi, m.ranges, x)
    {
      Invert();
      UnionWithMask(m);
      Invert();
    }

    /** operator-= applied to the mask itself: the union adds nothing, and nothing is taken away. */
    method MinusAssignSelf()
      requires Valid()
      modifies this
      ensures Valid() && ranges == old(ranges) && lo == old(lo) && hi == old(hi)
    {
      Invert();
      UnionWithMask(this);
      Invert();
      CanonIsUnique(ranges, old(ranges), lo, hi);
    }

    // -------------------------------------------------------------- reading

    /**
      lowest: the `items` smallest members, unless a sum leaves 32 bits on the way; then the members
      before that range.
     */
    method Lowest(items: nat) returns (ret: Ranges)
      requires Valid() && items < 0x1_0000_0000
      ensures IsLowest(ranges, items, ret) <==> !Overruns(ranges, items)
      ensures CutShort(ranges, items, ret) <==> Overruns(ranges, items)
      ensures IsLowest(ranges, items, ret) ==> Canon(ret, lo, hi)
    {
      ret := map[];
      var left: nat := items;
      ghost var last: nat := 0;
      ghost var bad: Option<nat> := None;
      var i := UpperBound(ranges, -1);
      while i.Some? && left != 0
        invariant Taking(ranges, ret, items, last, left, i, bad) && last <= hi
        decreases hi - last
      {
        var k := i.value;
        ghost var was := ret;
        InGround(ranges, lo, hi, last, k);
        var end := Min((k + left) % Modulus, ranges[k]);
        ret := ret[k := end];
        if k + left >= Modulus { bad := Some(k); }
        ghost var left' := (left - (end - k)) % Modulus;
        LowestRound(ranges, was, lo, hi, items, last, left, k, end, left', bad);
        left := (left - (end - k)) % Modulus;
        last := ranges[k];
        i := UpperBound(ranges, k);
      }
      LowestEnds(ranges, ret, lo, hi, items, last, left, i, bad);
    }

    method Contains(i: nat) returns (r: bool)
      requires Valid()
      ensures r <==> In(i)
    {
      var after := UpperBound(ranges, i);
      var it := LowerNeighbour(ranges, i);
      BetweenNeighbours(ranges, lo, hi, i, it, after);
      r := it.Some? && ranges[it.value] > i;
    }

    /** next: right for every number but the largest, after which the step wraps around to zero. */
    method Next(t: nat) returns (r: nat)
      requires Valid() && t < 0x1_0000_0000
      ensures LeastFrom(ranges, hi, (t + 1) % Modulus, r)
      ensures LeastFrom(ranges, hi, t + 1, r) <==> t + 1 < 0x1_0000_0000 || ranges == map[]
    {
      r := NextFrom((t + 1) % Modulus);
      if t + 1 == Modulus { WrapsAround(ranges, lo, hi, r); } else { WithinModulus(t + 1); }
    }

    /** The least member that is at least `from`. */
    method NextFrom(from: nat) returns (r: nat)
      requires Valid()
      ensures LeastFrom(ranges, hi, from, r)
    {
      var uit := UpperBound(ranges, from);
      var it := LowerNeighbour(ranges, from);
      BetweenNeighbours(ranges, lo, hi, from, it, uit);
      if it.Some? && ranges[it.value] > from {
        return from;
      }
      r := if uit.None? then hi else uit.value;
      if uit.Some? { HoldsAt(ranges, r, r); }
    }

    /** A walk from begin() to end() visits every member once, in ascending order. */
    method Members() returns (s: seq<nat>)
      requires Valid()
      ensures forall a, b | 0 <= a < b < |s| :: s[a] < s[b]
      ensures forall x: nat :: x in s <==> In(x)
    {
      s := [];
      var first := UpperBound(ranges, -1);
      var value := if first.None? then hi else first.value;
      ghost var from: nat := 0;
      assert LeastFrom(ranges, hi, from, value) by { FirstIsLeast(ranges, lo, hi, first); }
      while value != hi
        invariant from <= value <= hi && LeastFrom(ranges, hi, from, value)
        invariant forall a | 0 <= a < |s| :: s[a] < from
        invariant forall a, b | 0 <= a < b < |s| :: s[a] < s[b]
        invariant forall x: nat :: x in s <==> In(x) && x < from
        decreases hi - value
      {
        s := s + [value];
        from := value + 1;
        value := Next(value);
      }
    }

    /** size: the number of members. */
    method Size() returns (c: nat)
      requires Valid()
      ensures c == Count(ranges, hi) == |set y: nat | y < hi && Holds(ranges, y)|
    {
      c := 0;
      ghost var last := 0;
      var i := UpperBound(ranges, -1);
      while i.Some?
        invariant FirstFrom(ranges, last, i) && c == Count(ranges, last) && last <= hi
        invariant forall k | k in ranges && k < last :: ranges[k] <= last
        decreases hi - last, i.Some?
      {
        var k := i.value;
        CountRange(ranges, lo, hi, last, k);
        c := c + (ranges[k] - k);
        last := ranges[k];
        i := UpperBound(ranges, k);
      }
      CountOver(ranges, last, hi, false);
      CountIsCardinality(ranges, hi);
    }

    /** full: every number of the ground range is a member. */
    method Full() returns (r: bool)
      requires Valid()
      ensures r <==> forall x | lo <= x < hi :: In(x)
    {
      var begin := UpperBound(ranges, -1);
      r := lo == hi || (|ranges| == 1 && begin.value == lo && ranges[begin.value] == hi);
      if r && lo < hi {
        forall x | lo <= x < hi ensures In(x) { HoldsAt(ranges, lo, x); }
      } else if lo < hi && forall x | lo <= x < hi :: In(x) {
        forall x ensures Holds(ranges, x) <==> Holds(map[lo := hi], x) {
          HoldsSingle(lo, hi, x);
          if lo <= x < hi { assert In(x); }
        }
        CanonIsUnique(ranges, map[lo := hi], lo, hi);
      }
    }

    /** firstOut: the first number of the ground range that is no member, or its end. */
    method FirstOut() returns (r: nat)
      requires Valid()
      ensures lo <= r <= hi && !In(r) && forall x | lo <= x < r :: In(x)
    {
      r := if lo !in ranges then lo else ranges[lo];
      if lo in ranges { RangeEnds(ranges, lo, hi, lo); }
      forall x | lo <= x < r ensures In(x) { HoldsAt(ranges, lo, x); }
    }

    /** lastIn: the largest member, or the beginning of the ground range. */
    method LastIn() returns (r: nat)
      requires Valid()
      ensures if exists x :: In(x) then In(r) && forall x | In(x) :: x <= r else r == lo
    {
      if ranges == map[] { return lo; }
      var last := LowerNeighbour(ranges, hi);
      r := ranges[last.value] - 1;
      HoldsAt(ranges, last.value, r);
      assert In(r);
    }
  }

  // ---------------------------------------------------------------- lowest

  /** `ret` has the `n` smallest members. */
  ghost predicate IsLowest(m: Ranges, n: nat, ret: Ranges) {
    forall x: nat :: Holds(ret, x) <==> Holds(m, x) && Count(m, x) < n
  }

  /** The range at `k` is reached with so many numbers left to take that their sum exceeds 32 bits. */
  ghost predicate OverrunsAt(m: Ranges, k: nat, n: nat) {
    Count(m, k) < n && k + (n - Count(m, k)) >= 0x1_0000_0000
  }

  ghost predicate Overruns(m: Ranges, n: nat) {
    exists k {:trigger OverrunsAt(m, k, n)} :: k in m && OverrunsAt(m, k, n)
  }

  /** `ret` has the members before the first range at which a sum exceeds 32 bits. */
  ghost predicate CutAt(m: Ranges, ret: Ranges, n: nat, k: nat) {
    && k in m && OverrunsAt(m, k, n)
    && (forall j {:trigger OverrunsAt(m, j, n)} | j in m && j < k :: !OverrunsAt(m, j, n))
    && (forall x: nat :: Holds(ret, x) <==> Holds(m, x) && x < k)
  }

  ghost predicate CutShort(m: Ranges, n: nat, ret: Ranges) {
    exists k :: CutAt(m, ret, n, k)
  }

  /** The `n` smallest members: min(n, size) of them, and each below every member left out. */
  lemma {:induction false} LowestMeaning(m: Ranges, n: nat, ret: Ranges, end: nat)
    requires IsLowest(m, n, ret)
    ensures Count(ret, end) == Min(n, Count(m, end))
    ensures forall x: nat, y: nat | Holds(ret, x) && Holds(m, y) && !Holds(ret, y) :: x < y
  {
    if end > 0 { LowestMeaning(m, n, ret, end - 1); }
    forall x: nat, y: nat | Holds(ret, x) && Holds(m, y) && !Holds(ret, y) ensures x < y {
      if y <= x { CountMonotone(m, y, x); }
    }
  }

  /** Asking for everything can already go wrong: of {1, 3} this returns nothing. */
  lemma LowestOverrunsExample(ret: Ranges)
    ensures var m: Ranges := map[1 := 2, 3 := 4];
      && Canon(m, 0, 4) && Overruns(m, 0xffff_ffff)
      && (CutShort(m, 0xffff_ffff, ret) ==> forall x: nat :: !Holds(ret, x))
  {
    var m: Ranges := map[1 := 2, 3 := 4];
    CountOver(m, 0, 1, false);
    assert OverrunsAt(m, 1, 0xffff_ffff);
  }

  /** A request that fits above the ground range is always served. */
  lemma SmallRequestsNeverOverrun(m: Ranges, lo: nat, hi: nat, n: nat)
    requires Canon(m, lo, hi) && n + hi <= 0x1_0000_0000
    ensures !Overruns(m, n)
  {
  }

  /** The ranges before `last` have been cut to the first `n` members, `left` are still to take. */
  ghost predicate Lower(m: Ranges, ret: Ranges, n: nat, last: nat, left: nat) {
    && (forall k | k in m && k < last :: m[k] <= last)
    && (forall k {:trigger OverrunsAt(m, k, n)} | k in m && k < last :: !OverrunsAt(m, k, n))
    && (forall k | k in ret :: k in m && k < ret[k] <= m[k] && k < last)
    && (forall x: nat | x < last :: Holds(ret, x) <==> Holds(m, x) && Count(m, x) < n)
    && left == (if Count(m, last) < n then n - Count(m, last) else 0)
  }

  /** Counting up to, and into, the first range from `last`. */
  lemma CountRange(m: Ranges, lo: nat, hi: nat, last: nat, k: nat)
    requires Canon(m, lo, hi) && FirstFrom(m, last, Some(k))
    requires forall j | j in m && j < last :: m[j] <= last
    ensures forall x: nat | last <= x < k :: !Holds(m, x)
    ensures forall x: nat | k <= x < m[k] :: Holds(m, x)
    ensures Count(m, k) == Count(m, last)
    ensures forall x: nat | k <= x <= m[k] :: Count(m, x) == Count(m, last) + (x - k)
  {
    forall x: nat | k <= x < m[k] ensures Holds(m, x) { HoldsAt(m, k, x); }
    CountOver(m, last, k, false);
    forall x: nat | k <= x <= m[k] ensures Count(m, x) == Count(m, last) + (x - k) { CountOver(m, k, x, true); }
  }

  lemma InGround(m: Ranges, lo: nat, hi: nat, last: nat, k: nat)
    requires Canon(m, lo, hi) && FirstFrom(m, last, Some(k))
    ensures last <= k < m[k] <= hi
  {
  }

  /** The members taken from the range at `k`. */
  lemma LowestTakes(m: Ranges, was: Ranges, lo: nat, hi: nat, n: nat, last: nat, left: nat, k: nat, x: nat)
    requires Canon(m, lo, hi) && FirstFrom(m, last, Some(k)) && Lower(m, was, n, last, left)
    requires 0 < left && x < m[k]
    ensures Holds(was[k := Min(k + left, m[k])], x) <==> Holds(m, x) && Count(m, x) < n
  {
    HoldsUpdated(was, k, Min(k + left, m[k]), x);
    CountRange(m, lo, hi, last, k);
    assert last <= x ==> !Holds(was, x);
  }

  lemma LowestStep(m: Ranges, was: Ranges, lo: nat, hi: nat, n: nat, last: nat, left: nat, k: nat)
    requires Canon(m, lo, hi) && FirstFrom(m, last, Some(k)) && Lower(m, was, n, last, left)
    requires 0 < left && k + left < Modulus
    ensures var end := Min(k + left, m[k]); Lower(m, was[k := end], n, m[k], left - (end - k))
  {
    hide Count;
    forall x: nat | x < m[k]
      ensures Holds(was[k := Min(k + left, m[k])], x) <==> Holds(m, x) && Count(m, x) < n
    {
      LowestTakes(m, was, lo, hi, n, last, left, k, x);
    }
    CountRange(m, lo, hi, last, k);
    forall j | j in m && j < m[k] ensures j <= k && m[j] <= m[k] {}
    assert !OverrunsAt(m, k, n);
  }

  lemma LowestBreaks(m: Ranges, was: Ranges, lo: nat, hi: nat, n: nat, last: nat, left: nat, k: nat)
    requires Canon(m, lo, hi) && FirstFrom(m, last, Some(k)) && Lower(m, was, n, last, left)
    requires 0 < left <= n < Modulus <= k + left && k < m[k] < Modulus
    ensures var end := Min((k + left) % Modulus, m[k]);
      CutAt(m, was[k := end], n, k) && (left - (end - k)) % Modulus == 0
  {
    hide Count;
    CountRange(m, lo, hi, last, k);
    var end := k + left - Modulus;
    assert (k + left) % Modulus == end;
    forall x: nat ensures Holds(was[k := end], x) <==> Holds(m, x) && x < k {
      HoldsUpdated(was, k, end, x);
      if x < last { CountMonotone(m, x, last); }
    }
  }

  /** The loop of `Lowest`: at `last`, about to look at `i`; `bad` is where a sum has overflown. */
  ghost predicate Taking(m: Ranges, ret: Ranges, n: nat, last: nat, left: nat, i: Option<nat>, bad: Option<nat>) {
    && left <= n
    && (bad.None? ==> FirstFrom(m, last, i) && Lower(m, ret, n, last, left))
    && (bad.Some? ==> left == 0 && CutAt(m, ret, n, bad.value))
  }

  lemma LowestRound(m: Ranges, was: Ranges, lo: nat, hi: nat, n: nat, last: nat, left: nat, k: nat, end: nat, left': nat,
                    bad: Option<nat>)
    requires Canon(m, lo, hi) && hi < Modulus && FirstFrom(m, last, Some(k)) && Lower(m, was, n, last, left)
    requires 0 < left <= n < Modulus && bad == if k + left >= Modulus then Some(k) else None
    requires end == Min((k + left) % Modulus, m[k]) && left' == (left - (end - k)) % Modulus
    ensures left' <= n && (bad.None? ==> Lower(m, was[k := end], n, m[k], left'))
    ensures bad.Some? ==> left' == 0 && CutAt(m, was[k := end], n, k)
  {
    hide Count, Holds, CutAt, Lower, OverrunsAt, Canon;
    InGround(m, lo, hi, last, k);
    if k + left < Modulus {
      WithinModulus(k + left);
      WithinModulus(left - (end - k));
      LowestStep(m, was, lo, hi, n, last, left, k);
    } else {
      LowestBreaks(m, was, lo, hi, n, last, left, k);
    }
  }

  lemma WithinModulus(x: int)
    requires 0 <= x < Modulus
    ensures x % Modulus == x
  {
  }

  lemma LowestEnds(m: Ranges, ret: Ranges, lo: nat, hi: nat, n: nat, last: nat, left: nat, i: Option<nat>, bad: Option<nat>)
    requires Canon(m, lo, hi) && Taking(m, ret, n, last, left, i, bad)
    requires i.None? || left == 0
    ensures IsLowest(m, n, ret) <==> !Overruns(m, n)
    ensures CutShort(m, n, ret) <==> Overruns(m, n)
    ensures IsLowest(m, n, ret) ==> Canon(ret, lo, hi)
  {
    if bad.Some? {
      HoldsAt(m, bad.value, bad.value);
    } else {
      forall x: nat | last <= x ensures !Holds(ret, x) && !(Holds(m, x) && Count(m, x) < n) {
        CountMonotone(m, last, x);
      }
      forall k | k in m ensures !OverrunsAt(m, k, n) {
        if last <= k { CountMonotone(m, last, k); }
      }
    }
  }

  // ---------------------------------------------------------------- next

  /** `r` is the least member from `from` on, or the end of the ground range if there is none. */
  ghost predicate LeastFrom(m: Ranges, hi: nat, from: nat, r: nat) {
    && (forall x | from <= x < r :: !Holds(m, x))
    && (if Holds(m, r) then from <= r else r == hi && forall x | from <= x :: !Holds(m, x))
  }

  lemma FirstIsLeast(m: Ranges, lo: nat, hi: nat, first: Option<nat>)
    requires Canon(m, lo, hi) && FirstFrom(m, 0, first)
    ensures LeastFrom(m, hi, 0, if first.None? then hi else first.value)
  {
    if first.Some? { HoldsAt(m, first.value, first.value); }
  }

  /** What the step beyond the largest number answers is right only for the empty mask. */
  lemma WrapsAround(m: Ranges, lo: nat, hi: nat, r: nat)
    requires Canon(m, lo, hi) && hi < Modulus && LeastFrom(m, hi, 0, r)
    ensures LeastFrom(m, hi, 0x1_0000_0000, r) <==> m == map[]
  {
    if m != map[] {
      var k :| k in m;
      HoldsAt(m, k, k);
    }
  }

  /** After the largest number comes the end of the ground range, but for {5} this answers 5 again. */
  lemma WrapsAroundExample(r: nat)
    ensures var m: Ranges := map[5 := 6];
      Canon(m, 0, 10) && (LeastFrom(m, 10, (0xffff_ffff + 1) % Modulus, r) ==> r == 5 && !LeastFrom(m, 10, 0x1_0000_0000, r))
  {
    HoldsSingle(5, 6, r);
    HoldsSingle(5, 6, 5);
  }

  function Min(a: nat, b: nat): nat { if a < b then a else b }

  function Max(a: nat, b: nat): nat { if a > b then a else b }

  /** What `operator-=` leaves: everything in either ground range but the complement and the operand. */
  ghost predicate Difference(lo: nat, hi: nat, a: Ranges, lo': nat, hi': nat, b: Ranges, x: int) {
    Min(lo, lo') <= x < Max(hi, hi') && !(lo <= x < hi && !Holds(a, x)) && !Holds(b, x)
  }

  /**
    It is the set difference exactly when the operand holds every number that its ground range
    adds to this one's, as it does whenever its ground range lies within.
   */
  lemma DifferenceIffCovered(lo: nat, hi: nat, a: Ranges, lo': nat, hi': nat, b: Ranges)
    requires lo <= hi && lo' <= hi' && Canon(a, lo, hi) && Canon(b, lo', hi')
    ensures (forall x :: Difference(lo, hi, a, lo', hi', b, x) <==> Holds(a, x) && !Holds(b, x))
       <==> (forall x | Min(lo, lo') <= x < Max(hi, hi') && !(lo <= x < hi) :: Holds(b, x))
    ensures lo <= lo' && hi' <= hi ==>
              forall x :: Difference(lo, hi, a, lo', hi', b, x) <==> Holds(a, x) && !Holds(b, x)
  {
    if forall x :: Difference(lo, hi, a, lo', hi', b, x) <==> Holds(a, x) && !Holds(b, x) {
      forall x | Min(lo, lo') <= x < Max(hi, hi') && !(lo <= x < hi) ensures Holds(b, x) {
        assert Difference(lo, hi, a, lo', hi', b, x) <==> Holds(a, x) && !Holds(b, x);
      }
    }
  }

  /** Taking the empty mask over [0, 4) from that over [0, 2) puts 2 and 3 in. */
  lemma DifferenceAddsExample()
    ensures Canon(map[], 0, 2) && Canon(map[], 0, 4)
    ensures forall x :: Difference(0, 2, map[], 0, 4, map[], x) <==> 2 <= x < 4
  {
  }

  /** The complement of `m` has been built up to `last`, where a range of `m` ends. */
  ghost predicate Midway(m: Ranges, ret: Ranges, lo: nat, hi: nat, last: nat) {
    && lo <= last <= hi && Canon(ret, lo, hi)
    && (forall k | k in ret :: ret[k] < last)
    && (forall k | k in m && k < last :: m[k] <= last)
    && (forall x | x < last :: Holds(ret, x) <==> lo <= x && !Holds(m, x))
  }

  /** `i` is the first range that begins at `last` or later. */
  ghost predicate FirstFrom(m: Ranges, last: nat, i: Option<nat>) {
    && (i.Some? ==> i.value in m && last <= i.value && forall k | k in m && last <= k :: i.value <= k)
    && (i.None? ==> forall k | k in m :: k < last)
  }

  /** Between the end of a range and the beginning of the next there is nothing. */
  lemma GapIsEmpty(m: Ranges, lo: nat, hi: nat, last: nat, i: Option<nat>, x: int)
    requires Canon(m, lo, hi) && FirstFrom(m, last, i) && forall k | k in m && k < last :: m[k] <= last
    requires last <= x && (i.Some? ==> x < i.value)
    ensures !Holds(m, x)
  {
  }

  /** The complement below the end of the range at `k`. */
  lemma ComplementBelow(m: Ranges, was: Ranges, ret: Ranges, lo: nat, hi: nat, last: nat, k: nat, x: int)
    requires Canon(m, lo, hi) && Midway(m, was, lo, hi, last) && FirstFrom(m, last, Some(k))
    requires ret == (if k != last then was[last := k] else was) && x < m[k]
    ensures Holds(ret, x) <==> lo <= x && !Holds(m, x)
  {
    assert last !in was;
    HoldsUpdated(was, last, k, x);
    if last <= x < k { GapIsEmpty(m, lo, hi, last, Some(k), x); }
    if k <= x { HoldsAt(m, k, x); }
    assert last <= x ==> !Holds(was, x);
  }

  lemma ComplementStep(m: Ranges, was: Ranges, ret: Ranges, lo: nat, hi: nat, last: nat, k: nat)
    requires Canon(m, lo, hi) && Midway(m, was, lo, hi, last) && FirstFrom(m, last, Some(k))
    requires ret == if k != last then was[last := k] else was
    ensures Midway(m, ret, lo, hi, m[k])
  {
    hide Holds;
    assert last !in was;
    forall x: int | x < m[k] ensures Holds(ret, x) <==> lo <= x && !Holds(m, x) {
      ComplementBelow(m, was, ret, lo, hi, last, k, x);
    }
  }

  /** The complement, once its last gap is filled in. */
  lemma ComplementAt(m: Ranges, was: Ranges, ret: Ranges, lo: nat, hi: nat, last: nat, x: int)
    requires Canon(m, lo, hi) && Midway(m, was, lo, hi, last) && FirstFrom(m, last, None)
    requires ret == if last != hi then was[last := hi] else was
    ensures Holds(ret, x) <==> lo <= x < hi && !Holds(m, x)
  {
    assert last !in was;
    HoldsUpdated(was, last, hi, x);
    if last <= x { GapIsEmpty(m, lo, hi, last, None, x); }
    assert last <= x ==> !Holds(was, x);
  }

  lemma ComplementEnd(m: Ranges, was: Ranges, ret: Ranges, lo: nat, hi: nat, last: nat)
    requires Canon(m, lo, hi) && Midway(m, was, lo, hi, last) && FirstFrom(m, last, None)
    requires ret == if last != hi then was[last := hi] else was
    ensures Canon(ret, lo, hi)
    ensures forall x :: Holds(ret, x) <==> lo <= x < hi && !Holds(m, x)
  {
    hide Holds;
    assert last !in was;
    forall x ensures Holds(ret, x) <==> lo <= x < hi && !Holds(m, x) {
      ComplementAt(m, was, ret, lo, hi, last, x);
    }
  }

  /** A new range set apart from its neighbours. */
  lemma NewRange(m: Ranges, m': Ranges, lo: nat, hi: nat, i: nat, end: nat, below: Option<nat>, after: Option<nat>)
    requires Canon(m, lo, hi) && Neighbours(m, i, below, after) && lo <= i < end <= hi && m' == m[i := end]
    requires below.Some? ==> m[below.value] < i
    requires after.Some? ==> end < after.value
    ensures Canon(m', lo, hi) && i !in m
    ensures forall x :: Holds(m', x) <==> Holds(m, x) || i <= x < end
    ensures forall x | i <= x < end :: Holds(m', x)
  {
    hide Holds;
    assert i !in m;
    forall x ensures Holds(m', x) <==> Holds(m, x) || i <= x < end {
      HoldsUpdated(m, i, end, x);
    }
  }

  /** The range that ends at `i` grown up to `end`. */
  lemma GrownUp(m: Ranges, m': Ranges, lo: nat, hi: nat, i: nat, end: nat, below: Option<nat>, after: Option<nat>)
    requires Canon(m, lo, hi) && Neighbours(m, i, below, after) && i < end <= hi
    requires below.Some? && m[below.value] == i && m' == m[below.value := end]
    requires after.Some? ==> end < after.value
    ensures Canon(m', lo, hi)
    ensures forall x :: Holds(m', x) <==> Holds(m, x) || i <= x < end
    ensures forall x | i <= x < end :: Holds(m', x)
  {
    var b := below.value;
    forall k | k in m && b < k ensures end < k { assert m[b] < k; }
    forall x | b <= x < end ensures Holds(m', x) { HoldsAt(m', b, x); }
    forall x | Holds(m, x) ensures Holds(m', x) {
      var k :| k in m && k <= x < m[k];
      HoldsAt(m', k, x);
    }
    forall x | Holds(m', x) ensures Holds(m, x) || i <= x < end {
      var k :| k in m' && k <= x < m'[k];
      if k != b || x < i { HoldsAt(m, k, x); }
    }
  }

  /** The map with the range at `gone` erased and one from `at` to its end put in. */
  function Merged(m: Ranges, at: nat, gone: nat): Ranges
    requires gone in m
  {
    (map k | k in m && k != gone :: m[k])[at := m[gone]]
  }

  lemma MergedIsCanon(m: Ranges, lo: nat, hi: nat, at: nat, gone: nat)
    requires Canon(m, lo, hi) && gone in m && lo <= at < gone
    requires forall k | k in m && k < at :: m[k] < at
    requires forall k | k in m && at < k :: gone <= k
    ensures Canon(Merged(m, at, gone), lo, hi)
  {
  }

  /** The members after a merge: the old ones, and those in the gap that closes. */
  lemma MergedHolds(m: Ranges, at: nat, gone: nat, gap: nat)
    requires gone in m && at <= gap <= gone < m[gone]
    requires if at in m then m[at] == gap else gap == at
    requires at != gone
    ensures forall x :: Holds(Merged(m, at, gone), x) <==> Holds(m, x) || gap <= x < gone
    ensures forall x | at <= x < m[gone] :: Holds(Merged(m, at, gone), x)
  {
    var m' := Merged(m, at, gone);
    forall x | at <= x < m[gone] ensures Holds(m', x) { HoldsAt(m', at, x); }
    forall x | at <= x < m[gone] ensures Holds(m, x) || gap <= x < gone {
      if x < gap { HoldsAt(m, at, x); } else if gone <= x { HoldsAt(m, gone, x); }
    }
    forall x | Holds(m, x) ensures Holds(m', x) {
      var k :| k in m && k <= x < m[k];
      if k != gone && k != at { HoldsAt(m', k, x); }
    }
    forall x | Holds(m', x) ensures Holds(m, x) || gap <= x < gone {
      var k :| k in m' && k <= x < m'[k];
      if k != at { HoldsAt(m, k, x); }
    }
  }
}
