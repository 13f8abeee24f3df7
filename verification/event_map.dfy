/**
 * The aggregator's cache `#eventsStored` (src/main.ts:22) is a JavaScript
 * `Map<string, CalendarFeedEvent>` whose keys are always the ids of their
 * values. It is modelled as the sequence of its values in iteration order,
 * which for a `Map` is insertion order; the key of an entry is its value's id.
 */
module EventMap {
  import opened Types

  /** No id occurs twice: the sequence is the value list of a `Map`. */
  predicate UniqueIds(s: seq<Event>) {
    forall i, j :: 0 <= i < j < |s| ==> s[i].id != s[j].id
  }

  /** The keys of the map. */
  function Ids(s: seq<Event>): set<string> {
    set e | e in s :: e.id
  }

  lemma IdsCons(s: seq<Event>)
    requires |s| > 0
    ensures Ids(s) == {s[0].id} + Ids(s[1..])
  {
    assert s == [s[0]] + s[1..];
  }

  lemma IdsConcat(a: seq<Event>, b: seq<Event>)
    ensures Ids(a + b) == Ids(a) + Ids(b)
  {
    assert forall e :: e in a + b <==> e in a || e in b;
  }

  /** `r` is `s` with some elements left out and the rest in their original order. */
  predicate IsSubsequence(r: seq<Event>, s: seq<Event>)
    decreases |s|
  {
    || |r| == 0
    || (&& |s| > 0
        && (|| (r[0] == s[0] && IsSubsequence(r[1..], s[1..]))
            || IsSubsequence(r, s[1..])))
  }

  lemma {:induction false} SubsequenceElements(r: seq<Event>, s: seq<Event>)
    requires IsSubsequence(r, s)
    ensures forall e :: e in r ==> e in s
    ensures Ids(r) <= Ids(s)
    decreases |s|
  {
    if |r| > 0 {
      if r[0] == s[0] && IsSubsequence(r[1..], s[1..]) {
        SubsequenceElements(r[1..], s[1..]);
        assert forall e :: e in r ==> e == r[0] || e in r[1..];
      } else {
        SubsequenceElements(r, s[1..]);
      }
    }
  }

  lemma {:induction false} SubsequenceUnique(r: seq<Event>, s: seq<Event>)
    requires IsSubsequence(r, s) && UniqueIds(s)
    ensures UniqueIds(r)
    decreases |s|
  {
    if |r| > 0 {
      if r[0] == s[0] && IsSubsequence(r[1..], s[1..]) {
        SubsequenceUnique(r[1..], s[1..]);
        SubsequenceElements(r[1..], s[1..]);
        forall j | 0 < j < |r|
          ensures r[0].id != r[j].id
        {
          assert r[j] in r[1..];
        }
      } else {
        SubsequenceUnique(r, s[1..]);
      }
    }
  }

  lemma {:induction false} SubsequenceRefl(s: seq<Event>)
    ensures IsSubsequence(s, s)
    decreases |s|
  {
    if |s| > 0 {
      SubsequenceRefl(s[1..]);
    }
  }

  /** `Map.prototype.get`: the value stored under `id`, if any. */
  function Lookup(s: seq<Event>, id: string): (r: Option<Event>)
    ensures r.Some? ==> r.value in s && r.value.id == id
    ensures r.None? <==> id !in Ids(s)
  {
    if |s| == 0 then None
    else if s[0].id == id then Some(s[0])
    else (IdsCons(s); Lookup(s[1..], id))
  }

  /** In a map every value is what its own key looks up. */
  lemma {:induction false} LookupUnique(s: seq<Event>, e: Event)
    requires UniqueIds(s)
    ensures e in s <==> Lookup(s, e.id) == Some(e)
  {
    if |s| > 0 && s[0] != e {
      if s[0].id == e.id {
        assert e !in s[1..];
      } else {
        LookupUnique(s[1..], e);
      }
    }
  }

  /**
   * `Map.prototype.set(e.id, e)`: an existing entry gets the new value and
   * keeps its position; a new key is appended at the end.
   */
  function MapSet(s: seq<Event>, e: Event): (r: seq<Event>)
    ensures e.id !in Ids(s) ==> r == s + [e]
    ensures e.id in Ids(s) ==> |r| == |s|
    ensures Ids(r) == Ids(s) + {e.id}
  {
    if |s| == 0 then [e]
    else if s[0].id == e.id then [e] + s[1..]
    else
      IdsCons(s);
      var t := MapSet(s[1..], e);
      IdsConcat([s[0]], t);
      assert Ids([s[0]]) == {s[0].id};
      [s[0]] + t
  }

  lemma UniqueTail(ys: seq<Event>)
    requires UniqueIds(ys) && |ys| > 0
    ensures UniqueIds(ys[1..]) && ys[0].id !in Ids(ys[1..])
  {
    forall i, j | 0 <= i < j < |ys[1..]|
      ensures ys[1..][i].id != ys[1..][j].id
    {
      assert ys[1..][i] == ys[i + 1] && ys[1..][j] == ys[j + 1];
    }
  }

  /** In a map, `set` of a present key replaces its value where it stands. */
  lemma {:induction false} MapSetInPlace(s: seq<Event>, e: Event)
    requires UniqueIds(s) && e.id in Ids(s)
    ensures |MapSet(s, e)| == |s|
    ensures forall i :: 0 <= i < |s| ==> MapSet(s, e)[i] == (if s[i].id == e.id then e else s[i])
  {
    var r := MapSet(s, e);
    UniqueTail(s);
    if s[0].id == e.id {
      assert r == [e] + s[1..];
      forall i | 0 < i < |s|
        ensures r[i] == s[i] && s[i].id != e.id
      {
        assert s[i] in s[1..];
      }
    } else {
      IdsCons(s);
      var t := MapSet(s[1..], e);
      MapSetInPlace(s[1..], e);
      assert r == [s[0]] + t;
      forall i | 0 < i < |s|
        ensures r[i] == (if s[i].id == e.id then e else s[i])
      {
        assert r[i] == t[i - 1] && s[i] == s[1..][i - 1];
      }
    }
  }

  /** Only the entry for `e.id` changes, and only its value. */
  lemma MapSetLookup(s: seq<Event>, e: Event)
    requires UniqueIds(s)
    ensures UniqueIds(MapSet(s, e))
    ensures Lookup(MapSet(s, e), e.id) == Some(e)
    ensures forall id :: id != e.id ==> Lookup(MapSet(s, e), id) == Lookup(s, id)
  {
    var r := MapSet(s, e);
    if e.id in Ids(s) {
      MapSetInPlace(s, e);
    }
    assert UniqueIds(r);
    LookupUnique(r, e);
    forall id | id != e.id
      ensures Lookup(r, id) == Lookup(s, id)
    {
      if id in Ids(s) {
        var x := Lookup(s, id).value;
        LookupUnique(s, x);
        assert x in r;
        LookupUnique(r, x);
      }
    }
  }

  /** The position of the first entry with id `id`. */
  function IndexOf(s: seq<Event>, id: string): (i: nat)
    requires id in Ids(s)
    ensures i < |s| && s[i].id == id
    ensures forall j :: 0 <= j < i ==> s[j].id != id
  {
    if s[0].id == id then 0 else (IdsCons(s); 1 + IndexOf(s[1..], id))
  }

  /** `Map.prototype.delete(id)`: the entry for `id` leaves, the others keep their order. */
  function MapDelete(s: seq<Event>, id: string): (r: seq<Event>)
    ensures id !in Ids(s) ==> r == s
    ensures id in Ids(s) ==> r == s[..IndexOf(s, id)] + s[IndexOf(s, id) + 1..]
  {
    if |s| == 0 then s
    else if s[0].id == id then s[1..]
    else
      IdsCons(s);
      MapDeleteCons(s, id);
      [s[0]] + MapDelete(s[1..], id)
  }

  /** Dropping the first entry with `id` commutes with putting a different head in front. */
  lemma MapDeleteCons(s: seq<Event>, id: string)
    ensures |s| > 0 && s[0].id != id && id in Ids(s[1..]) ==>
      var j := IndexOf(s[1..], id);
      && id in Ids(s)
      && [s[0]] + (s[1..][..j] + s[1..][j + 1..]) == s[..IndexOf(s, id)] + s[IndexOf(s, id) + 1..]
  {
    if |s| > 0 && s[0].id != id && id in Ids(s[1..]) {
      IdsCons(s);
      var j := IndexOf(s[1..], id);
      assert IndexOf(s, id) == j + 1;
      DropOneShift(s, j);
    }
  }

  /** Dropping position `j` of the tail is dropping position `j + 1` of the whole list. */
  lemma DropOneShift(s: seq<Event>, j: nat)
    requires j + 1 < |s|
    ensures [s[0]] + (s[1..][..j] + s[1..][j + 1..]) == s[..j + 1] + s[j + 2..]
  {
    var a := [s[0]] + (s[1..][..j] + s[1..][j + 1..]);
    var b := s[..j + 1] + s[j + 2..];
    assert |a| == |b| == |s| - 1;
    forall k | 0 <= k < |a|
      ensures a[k] == b[k]
    {
      if k > j {
        assert a[k] == s[k + 1] && b[k] == s[k + 1];
      }
    }
  }

  /** Removing position `i` of a map removes exactly the key at `i`. */
  lemma DropOneIds(s: seq<Event>, i: nat)
    requires UniqueIds(s) && i < |s|
    ensures Ids(s[..i] + s[i + 1..]) == Ids(s) - {s[i].id}
  {
    var a, b := s[..i], s[i + 1..];
    var r := a + b;
    forall x | x in Ids(r)
      ensures x in Ids(s) && x != s[i].id
    {
      var e :| e in r && e.id == x;
      if e in a {
        var k :| 0 <= k < i && a[k] == e;
        assert s[k] == e;
      } else {
        var k :| 0 <= k < |b| && b[k] == e;
        assert s[k + i + 1] == e;
      }
    }
    forall x | x in Ids(s) && x != s[i].id
      ensures x in Ids(r)
    {
      var e :| e in s && e.id == x;
      var k :| 0 <= k < |s| && s[k] == e;
      if k < i {
        assert a[k] == e;
      } else {
        assert b[k - i - 1] == e;
      }
      assert e in r;
    }
  }

  lemma MapDeleteShape(s: seq<Event>, id: string)
    requires UniqueIds(s)
    ensures Ids(MapDelete(s, id)) == Ids(s) - {id}
    ensures IsSubsequence(MapDelete(s, id), s)
  {
    if id in Ids(s) {
      var i := IndexOf(s, id);
      DropOneIds(s, i);
      DropOneSubsequence(s, i);
    } else {
      SubsequenceRefl(s);
    }
  }

  lemma MapDeleteLookup(s: seq<Event>, id: string)
    requires UniqueIds(s)
    ensures UniqueIds(MapDelete(s, id))
    ensures Ids(MapDelete(s, id)) == Ids(s) - {id}
    ensures IsSubsequence(MapDelete(s, id), s)
    ensures forall x :: Lookup(MapDelete(s, id), x) == if x == id then None else Lookup(s, x)
  {
    var r := MapDelete(s, id);
    MapDeleteShape(s, id);
    SubsequenceUnique(r, s);
    SubsequenceElements(r, s);
    forall x
      ensures Lookup(r, x) == if x == id then None else Lookup(s, x)
    {
      if x != id && x in Ids(s) {
        var v := Lookup(s, x).value;
        LookupUnique(s, v);
        assert v in r;
        LookupUnique(r, v);
      }
    }
  }

  lemma {:induction false} DropOneSubsequence(s: seq<Event>, i: nat)
    requires i < |s|
    ensures IsSubsequence(s[..i] + s[i + 1..], s)
    decreases i
  {
    if i == 0 {
      assert s[..0] + s[1..] == s[1..];
      SubsequenceRefl(s[1..]);
    } else {
      var r := s[..i] + s[i + 1..];
      DropOneSubsequence(s[1..], i - 1);
      assert r[0] == s[0];
      assert r[1..] == s[1..][..i - 1] + s[1..][i..];
    }
  }

  /**
   * The value a sequence of `set` calls leaves behind for `id`: the last
   * element of `ys` with that id.
   */
  function LastById(ys: seq<Event>, id: string): (r: Option<Event>)
    ensures r.None? <==> id !in Ids(ys)
    ensures r.Some? ==>
      exists i :: 0 <= i < |ys| && ys[i] == r.value && id == ys[i].id && id !in Ids(ys[i + 1..])
  {
    if |ys| == 0 then None
    else
      IdsCons(ys);
      var rest := LastById(ys[1..], id);
      if rest.Some? then
        assert exists i ::
          1 <= i < |ys| && ys[i] == rest.value && id == ys[i].id && id !in Ids(ys[i + 1..]) by {
          var j :| && 0 <= j < |ys[1..]| && ys[1..][j] == rest.value
                   && id == ys[1..][j].id && id !in Ids(ys[1..][j + 1..]);
          assert ys[1..][j + 1..] == ys[j + 2..];
        }
        rest
      else if ys[0].id == id then Some(ys[0])
      else None
  }

  /** The elements of `ys` with id `id`, in order. */
  function WithId(ys: seq<Event>, id: string): seq<Event>
  {
    if |ys| == 0 then []
    else (if ys[0].id == id then [ys[0]] else []) + WithId(ys[1..], id)
  }

  lemma WithIdCons(y: Event, t: seq<Event>, id: string)
    ensures WithId([y] + t, id) == (if y.id == id then [y] else []) + WithId(t, id)
  {
    assert ([y] + t)[1..] == t;
  }

  lemma {:induction false} WithIdConcat(a: seq<Event>, b: seq<Event>, id: string)
    ensures WithId(a + b, id) == WithId(a, id) + WithId(b, id)
  {
    if |a| > 0 {
      assert (a + b)[1..] == a[1..] + b;
      WithIdConcat(a[1..], b, id);
    } else {
      assert a + b == b;
    }
  }

  /** Which value survives for `id` depends only on the elements with that id. */
  lemma {:induction false} LastByIdIsLastWithId(ys: seq<Event>, id: string)
    ensures var w := WithId(ys, id); LastById(ys, id) == if |w| == 0 then None else Some(w[|w| - 1])
  {
    if |ys| > 0 {
      LastByIdIsLastWithId(ys[1..], id);
    }
  }

  lemma {:induction false} LastByIdConcat(a: seq<Event>, b: seq<Event>, id: string)
    ensures LastById(a + b, id) == if id in Ids(b) then LastById(b, id) else LastById(a, id)
  {
    if |a| == 0 {
      assert a + b == b;
    } else {
      assert (a + b)[1..] == a[1..] + b;
      LastByIdConcat(a[1..], b, id);
    }
  }

  /** With unique ids, the last element with an id is the only one. */
  lemma LastByIdUnique(s: seq<Event>, id: string)
    requires UniqueIds(s)
    ensures LastById(s, id) == Lookup(s, id)
  {
    if id in Ids(s) {
      var e := LastById(s, id).value;
      LookupUnique(s, e);
    }
  }

  /**
   * `SetAll(m, ys)` calls `MapSet` for every element of `ys` in order: the
   * loop of `#read` (src/main.ts:122-126) and the `Map` constructor of
   * `#write` (src/main.ts:182-184).
   */
  function SetAll(m: seq<Event>, ys: seq<Event>): (r: seq<Event>)
    ensures Ids(r) == Ids(m) + Ids(ys)
    decreases |ys|
  {
    if |ys| == 0 then m
    else (IdsCons(ys); SetAll(MapSet(m, ys[0]), ys[1..]))
  }

  /** Every key holds the last value given for it, or its old value when none was given. */
  lemma {:induction false} SetAllLookup(m: seq<Event>, ys: seq<Event>)
    requires UniqueIds(m)
    ensures UniqueIds(SetAll(m, ys))
    ensures forall id ::
      Lookup(SetAll(m, ys), id) == if id in Ids(ys) then LastById(ys, id) else Lookup(m, id)
    decreases |ys|
  {
    if |ys| > 0 {
      var m' := MapSet(m, ys[0]);
      MapSetLookup(m, ys[0]);
      SetAllLookup(m', ys[1..]);
      IdsCons(ys);
    }
  }
}
