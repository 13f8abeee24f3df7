/**
 * The re-sort that `#write` performs after a commit (src/main.ts:179-184):
 * the cached values followed by the new ones are sorted with `#sortByKeys`
 * and a fresh `Map` is built from the sorted list. `Array.prototype.sort` is
 * stable, so it is modelled by a stable insertion sort; for a consistent
 * comparator the stable sorted permutation is unique, so the algorithm the
 * engine really uses does not matter.
 */
module Sorting {
  import opened Types
  import opened KeyOrdering
  import opened EventMap

  /**
   * `#sortByKeys` (src/main.ts:194-214) on two events: it compares their
   * store keys, and since both share the namespace prefix only the ids decide.
   */
  function SortByKeys(prefix: Key, a: Event, b: Event): (r: int)
    ensures r == SegmentCompare(a.id, b.id)
  {
    CompareSharedPrefix(prefix, a.id, b.id);
    Compare(KeyOf(prefix, a.id), KeyOf(prefix, b.id))
  }

  /**
   * A comparator that orders events as `#sortByKeys` does under one prefix.
   * The source hands `#sortByKeys` to `Array.prototype.sort` as a bound
   * function value; `ByKeys(prefix)` is that value.
   */
  ghost predicate OrdersByIds(cmp: (Event, Event) -> int) {
    forall a, b :: cmp(a, b) == SegmentCompare(a.id, b.id)
  }

  /** `this.#sortByKeys.bind(this)` for an instance with namespace `prefix`. */
  function ByKeys(prefix: Key): (cmp: (Event, Event) -> int)
    ensures OrdersByIds(cmp)
  {
    (a, b) => SortByKeys(prefix, a, b)
  }

  /** Ascending in key order, ties allowed. */
  predicate SortedByIds(s: seq<Event>) {
    forall i, j :: 0 <= i < j < |s| ==> SegmentCompare(s[i].id, s[j].id) <= 0
  }

  /** Strictly ascending in key order, so in particular free of repeated ids. */
  predicate StrictlySortedByIds(s: seq<Event>) {
    forall i, j :: 0 <= i < j < |s| ==> SegmentCompare(s[i].id, s[j].id) < 0
  }

  lemma StrictlySortedIsUnique(s: seq<Event>)
    requires StrictlySortedByIds(s)
    ensures UniqueIds(s)
  {
    forall i, j | 0 <= i < j < |s|
      ensures s[i].id != s[j].id
    {
      SegmentCompareZero(s[i].id, s[j].id);
    }
  }

  lemma SortedCons(x: Event, s: seq<Event>)
    requires SortedByIds(s)
    requires forall e :: e in s ==> SegmentCompare(x.id, e.id) <= 0
    ensures SortedByIds([x] + s)
  {
    var r := [x] + s;
    forall i, j | 0 <= i < j < |r|
      ensures SegmentCompare(r[i].id, r[j].id) <= 0
    {
      if i > 0 {
        assert r[i] == s[i - 1] && r[j] == s[j - 1];
      } else {
        assert r[j] in s;
      }
    }
  }

  /**
   * Stable insertion: `x` goes in front of the first element that does not
   * sort before it.
   */
  function Insert(cmp: (Event, Event) -> int, s: seq<Event>, x: Event): (r: seq<Event>)
    requires OrdersByIds(cmp) && SortedByIds(s)
    ensures SortedByIds(r)
    ensures multiset(r) == multiset(s) + multiset{x}
  {
    if |s| == 0 then [x]
    else if cmp(x, s[0]) <= 0 then
      SortedHeadBound(x, s);
      SortedCons(x, s);
      [x] + s
    else
      SegmentCompareFlip(x.id, s[0].id);
      var t := Insert(cmp, s[1..], x);
      InsertedTailBound(s, t, x);
      SortedCons(s[0], t);
      assert s == [s[0]] + s[1..];
      [s[0]] + t
  }

  /** An id at or below the head of a sorted list is at or below all of it. */
  lemma SortedHeadBound(x: Event, s: seq<Event>)
    requires SortedByIds(s) && |s| > 0 && SegmentCompare(x.id, s[0].id) <= 0
    ensures forall e :: e in s ==> SegmentCompare(x.id, e.id) <= 0
  {
    forall e | e in s
      ensures SegmentCompare(x.id, e.id) <= 0
    {
      var k :| 0 <= k < |s| && s[k] == e;
      if k > 0 {
        SegmentCompareLeTrans(x.id, s[0].id, e.id);
      }
    }
  }

  /** The head of a sorted list is at or below the tail with an element above it inserted. */
  lemma InsertedTailBound(s: seq<Event>, t: seq<Event>, x: Event)
    requires SortedByIds(s) && |s| > 0 && SegmentCompare(s[0].id, x.id) < 0
    requires multiset(t) == multiset(s[1..]) + multiset{x}
    ensures forall e :: e in t ==> SegmentCompare(s[0].id, e.id) <= 0
  {
    forall e | e in t
      ensures SegmentCompare(s[0].id, e.id) <= 0
    {
      assert e in multiset(t);
      if e != x {
        assert e in multiset(s[1..]);
        var k :| 0 <= k < |s[1..]| && s[1..][k] == e;
        assert s[k + 1] == e;
      }
    }
  }

  /**
   * `Array.prototype.sort` with `#sortByKeys`: an ascending permutation that
   * keeps elements with equal keys (that is, equal ids) in their input order.
   */
  function Sort(cmp: (Event, Event) -> int, xs: seq<Event>): (r: seq<Event>)
    requires OrdersByIds(cmp)
    ensures SortedByIds(r)
    ensures multiset(r) == multiset(xs)
  {
    if |xs| == 0 then []
    else
      assert xs == [xs[0]] + xs[1..];
      Insert(cmp, Sort(cmp, xs[1..]), xs[0])
  }

  /**
   * Insertion is stable: among the elements with one id, `x` comes first,
   * because it is placed before every element that does not sort before it.
   */
  lemma InsertWithIdStep(y: Event, t: seq<Event>, rest: seq<Event>, x: Event, id: string)
    requires x.id != y.id
    requires WithId(t, id) == (if x.id == id then [x] else []) + WithId(rest, id)
    ensures WithId([y] + t, id) == (if x.id == id then [x] else []) + WithId([y] + rest, id)
  {
    WithIdCons(y, t, id);
    WithIdCons(y, rest, id);
  }

  lemma {:induction false} InsertWithId(cmp: (Event, Event) -> int, s: seq<Event>, x: Event, id: string)
    requires OrdersByIds(cmp) && SortedByIds(s)
    ensures WithId(Insert(cmp, s, x), id) == (if x.id == id then [x] else []) + WithId(s, id)
  {
    if |s| > 0 && cmp(x, s[0]) > 0 {
      SegmentCompareZero(x.id, s[0].id);
      var t := Insert(cmp, s[1..], x);
      assert Insert(cmp, s, x) == [s[0]] + t;
      InsertWithId(cmp, s[1..], x, id);
      InsertWithIdStep(s[0], t, s[1..], x, id);
      assert [s[0]] + s[1..] == s;
    } else {
      assert Insert(cmp, s, x) == [x] + s;
      WithIdCons(x, s, id);
    }
  }

  /** The sort keeps the elements of each id in their input order. */
  lemma {:induction false} SortWithId(cmp: (Event, Event) -> int, xs: seq<Event>, id: string)
    requires OrdersByIds(cmp)
    ensures WithId(Sort(cmp, xs), id) == WithId(xs, id)
  {
    if |xs| > 0 {
      SortWithId(cmp, xs[1..], id);
      InsertWithId(cmp, Sort(cmp, xs[1..]), xs[0], id);
    }
  }

  /** One `set` of a value no smaller than the map's keys keeps the map strictly sorted. */
  lemma MapSetSorted(m: seq<Event>, y: Event)
    requires StrictlySortedByIds(m)
    requires forall e :: e in m ==> SegmentCompare(e.id, y.id) <= 0
    ensures StrictlySortedByIds(MapSet(m, y))
  {
    StrictlySortedIsUnique(m);
    var m' := MapSet(m, y);
    if y.id in Ids(m) {
      MapSetInPlace(m, y);
      forall i, j | 0 <= i < j < |m'|
        ensures SegmentCompare(m'[i].id, m'[j].id) < 0
      {
        assert m'[i].id == m[i].id && m'[j].id == m[j].id;
      }
    } else {
      forall i, j | 0 <= i < j < |m'|
        ensures SegmentCompare(m'[i].id, m'[j].id) < 0
      {
        if j == |m| {
          assert m[i] in m && m'[j] == y;
          SegmentCompareZero(m[i].id, y.id);
        } else {
          assert m'[i] == m[i] && m'[j] == m[j];
        }
      }
    }
  }

  lemma MapSetBounded(m: seq<Event>, ys: seq<Event>)
    requires |ys| > 0 && SortedByIds(ys) && UniqueIds(m)
    requires forall e, y :: e in m && y in ys ==> SegmentCompare(e.id, y.id) <= 0
    ensures forall e, y :: e in MapSet(m, ys[0]) && y in ys[1..] ==> SegmentCompare(e.id, y.id) <= 0
  {
    var m' := MapSet(m, ys[0]);
    if ys[0].id in Ids(m) {
      MapSetInPlace(m, ys[0]);
    }
    forall e, y | e in m' && y in ys[1..]
      ensures SegmentCompare(e.id, y.id) <= 0
    {
      var k :| 0 < k < |ys| && ys[k] == y;
      if e !in m {
        var i :| 0 <= i < |m'| && m'[i] == e;
        assert e == ys[0];
      }
    }
  }

  /**
   * Building a `Map` from a sorted list yields a map whose iteration order is
   * strictly ascending: a repeated id keeps the position of its first
   * occurrence, and all occurrences are adjacent.
   */
  lemma {:induction false} SetAllSorted(m: seq<Event>, ys: seq<Event>)
    requires StrictlySortedByIds(m) && SortedByIds(ys)
    requires forall e, y :: e in m && y in ys ==> SegmentCompare(e.id, y.id) <= 0
    ensures StrictlySortedByIds(SetAll(m, ys))
    decreases |ys|
  {
    if |ys| > 0 {
      assert ys[0] in ys;
      MapSetSorted(m, ys[0]);
      StrictlySortedIsUnique(m);
      MapSetBounded(m, ys);
      SetAllSorted(MapSet(m, ys[0]), ys[1..]);
    }
  }

  /** Sorting does not change which value is the last one for an id. */
  lemma SortLastById(cmp: (Event, Event) -> int, xs: seq<Event>, id: string)
    requires OrdersByIds(cmp)
    ensures LastById(Sort(cmp, xs), id) == LastById(xs, id)
  {
    SortWithId(cmp, xs, id);
    LastByIdIsLastWithId(Sort(cmp, xs), id);
    LastByIdIsLastWithId(xs, id);
  }

  /**
   * The map `#write` builds from a list (src/main.ts:179-184): strictly
   * ascending, and each id holds the last value the list gives for it.
   */
  lemma Rebuild(cmp: (Event, Event) -> int, xs: seq<Event>)
    requires OrdersByIds(cmp)
    ensures StrictlySortedByIds(SetAll([], Sort(cmp, xs)))
    ensures forall id :: Lookup(SetAll([], Sort(cmp, xs)), id) == LastById(xs, id)
  {
    var ys := Sort(cmp, xs);
    SetAllSorted([], ys);
    SetAllLookup([], ys);
    forall id
      ensures LastById(ys, id) == LastById(xs, id)
    {
      SortLastById(cmp, xs, id);
    }
  }

  lemma StrictlySortedSameHead(a: seq<Event>, b: seq<Event>)
    requires StrictlySortedByIds(a) && StrictlySortedByIds(b)
    requires |a| > 0 && |b| > 0
    requires forall e :: e in a <==> e in b
    ensures a[0] == b[0]
  {
    assert a[0] in b;
    assert b[0] in a;
    if a[0] != b[0] {
      var k :| 0 <= k < |b| && b[k] == a[0];
      var m :| 0 <= m < |a| && a[m] == b[0];
      SegmentCompareFlip(a[0].id, b[0].id);
    }
  }

  lemma StrictlySortedTail(a: seq<Event>)
    requires StrictlySortedByIds(a) && |a| > 0
    ensures forall e :: e in a[1..] <==> e in a && e != a[0]
  {
    forall e | e in a[1..]
      ensures e != a[0]
    {
      var j :| 1 <= j < |a| && a[j] == e;
      SegmentCompareZero(a[0].id, e.id);
    }
    assert a == [a[0]] + a[1..];
  }

  /**
   * Strictly sorted sequences with the same elements are equal: the iteration
   * order of the rebuilt map is determined by its contents alone.
   */
  lemma {:induction false} StrictlySortedUnique(a: seq<Event>, b: seq<Event>)
    requires StrictlySortedByIds(a) && StrictlySortedByIds(b)
    requires forall e :: e in a <==> e in b
    ensures a == b
    decreases |a|
  {
    assert |b| > 0 ==> b[0] in a;
    if |a| > 0 {
      assert a[0] in b;
      StrictlySortedSameHead(a, b);
      StrictlySortedTail(a);
      StrictlySortedTail(b);
      StrictlySortedUnique(a[1..], b[1..]);
      assert a == [a[0]] + a[1..] && b == [b[0]] + b[1..];
    }
  }
}
