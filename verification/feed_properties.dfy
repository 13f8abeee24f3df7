/**
 * Properties of the aggregator's operations that relate several calls or
 * hold only under the invariant that the cache mirrors the store.
 */
module FeedProperties {
  import opened Types
  import opened KeyOrdering
  import opened Expiry
  import opened EventMap
  import opened Sorting
  import opened KvStore
  import opened CalendarFeed

  /**
   * The cache mirrors the store: it holds each id once, and every cached
   * event is the value stored under its key.
   */
  predicate Consistent(st: Aggregator) {
    && UniqueIds(st.events)
    && forall e :: e in st.events ==>
         KeyOf(st.prefix, e.id) in st.store && st.store[KeyOf(st.prefix, e.id)].value == e
  }

  // ----- Cleaning -----

  /** Cleaning a cache none of whose events has ended changes nothing. */
  lemma {:induction false} CleanKeepsUncleanable(s: seq<Event>, now: int)
    requires forall e :: e in s ==> !IsCleanable(e, now)
    ensures Clean(s, now) == s
  {
    if |s| > 0 {
      assert s == [s[0]] + s[1..];
      CleanKeepsUncleanable(s[1..], now);
    }
  }

  /**
   * Cleaning at `t1` and then at a later `t2` is cleaning at `t2`: the
   * clean at the start of each call never has to undo an earlier one.
   */
  lemma {:induction false} CleanLater(s: seq<Event>, t1: int, t2: int)
    requires t1 <= t2
    ensures Clean(Clean(s, t1), t2) == Clean(s, t2)
  {
    if |s| > 0 {
      CleanLater(s[1..], t1, t2);
      if !IsCleanable(s[0], t1) {
        var t := Clean(s[1..], t1);
        assert Clean(s, t1) == [s[0]] + t;
        assert ([s[0]] + t)[1..] == t;
      }
    }
  }

  /** Cleaning twice at one instant is cleaning once. */
  lemma CleanIdempotent(st: Aggregator, now: int)
    ensures Cleaned(Cleaned(st, now), now) == Cleaned(st, now)
  {
    CleanLater(st.events, now, now);
  }

  /**
   * `#clean` and `add` disagree about events without an end: one whose start
   * has passed stays cached, while `add` would have skipped it.
   */
  lemma CleanIgnoresStart(e: Event, now: int)
    requires e.end.None? && e.start <= now
    ensures Clean([e], now) == [e]
    ensures !IsLive(e, now)
  {
    assert [e][1..] == [];
  }

  lemma CleanedConsistent(st: Aggregator, now: int)
    requires Consistent(st)
    ensures Consistent(Cleaned(st, now))
  {
    SubsequenceUnique(Clean(st.events, now), st.events);
  }

  // ----- Lookups -----

  /** `has` answers whether `get` finds something, and both clean alike. */
  lemma HasAgreesWithGet(st: Aggregator, id: string, now: int)
    requires st.initialized
    ensures Has(st, id, now) == Step(Get(st, id, now).state, Ok(Get(st, id, now).result.value.Some?))
  {
  }

  /** What `get` returns from a consistent cache is what the store holds under its key. */
  lemma GetMatchesStore(st: Aggregator, id: string, now: int)
    requires st.initialized && Consistent(st)
    ensures var r := Get(st, id, now).result.value;
      r.Some? ==> KeyOf(st.prefix, id) in st.store && st.store[KeyOf(st.prefix, id)].value == r.value
  {
  }

  // ----- Adding -----

  /** The inputs of `add` that are live at `now`, in input order. */
  function LiveInputs(events: seq<Event>, now: int): (r: seq<Event>)
    ensures forall e :: e in r ==> e in events && IsLive(e, now)
  {
    if |events| == 0 then []
    else
      assert events == [events[0]] + events[1..];
      (if IsLive(events[0], now) then [events[0]] else []) + LiveInputs(events[1..], now)
  }

  /** When the loop of `add` succeeds, it has collected exactly the live inputs. */
  lemma {:induction false} CollectIsLiveInputs(cached: set<string>, events: seq<Event>, now: int)
    ensures Collect(cached, events, now).Ok? ==> Collect(cached, events, now).value == LiveInputs(events, now)
  {
    if |events| > 0 {
      CollectIsLiveInputs(cached, events[1..], now);
    }
  }

  /** No input id is cached after the opening clean: `add` will not throw. */
  predicate Fresh(st: Aggregator, events: seq<Event>, now: int) {
    forall e :: e in events ==> e.id !in Ids(Clean(st.events, now))
  }

  /**
   * The map `#write` rebuilds from the cleaned cache `c` and the pending
   * events `p`, when no pending id is cached: strictly ascending, holding
   * `c` and the last pending event of each pending id.
   */
  lemma RebuiltContents(cmp: (Event, Event) -> int, c: seq<Event>, p: seq<Event>)
    requires OrdersByIds(cmp) && UniqueIds(c) && Ids(c) !! Ids(p)
    ensures var m := SetAll([], Sort(cmp, c + p));
      && StrictlySortedByIds(m)
      && UniqueIds(m)
      && forall e :: e in m <==> e in c || LastById(p, e.id) == Some(e)
  {
    var m := SetAll([], Sort(cmp, c + p));
    Rebuild(cmp, c + p);
    StrictlySortedIsUnique(m);
    forall e
      ensures e in m <==> e in c || LastById(p, e.id) == Some(e)
    {
      LookupUnique(m, e);
      LookupUnique(c, e);
      LastByIdConcat(c, p, e.id);
      LastByIdUnique(c, e.id);
    }
  }

  /**
   * A successful `add` (src/main.ts:274-299 with `#write`, 157-185): the
   * store receives a write batch of the live inputs; with nothing live the
   * cache is just cleaned, otherwise it is rebuilt in strictly ascending key
   * order; either way it holds the cleaned cache plus, for each live id, the
   * last live input with that id.
   */
  lemma AddOutcome(st: Aggregator, events: seq<Event>, now: int)
    requires st.initialized && UniqueIds(st.events) && Fresh(st, events, now)
    ensures var r := Add(st, events, now);
      var c := Clean(st.events, now);
      var p := LiveInputs(events, now);
      && r.result == Ok(())
      && r.state.initialized && r.state.prefix == st.prefix
      && r.state.store == Commit(st.store, WriteBatch(st.prefix, p, now))
      && UniqueIds(r.state.events)
      && (|p| == 0 ==> r.state.events == c)
      && (|p| > 0 ==> StrictlySortedByIds(r.state.events))
      && forall e :: e in r.state.events <==> e in c || LastById(p, e.id) == Some(e)
  {
    var c := Clean(st.events, now);
    var p := LiveInputs(events, now);
    AddIsWrite(st, events, now);
    SubsequenceUnique(c, st.events);
    if |p| > 0 {
      assert Ids(c) !! Ids(p);
      RebuiltContents(ByKeys(st.prefix), c, p);
    }
  }

  /** When no input is cached, `add` writes exactly the live inputs to the cleaned instance. */
  lemma AddIsWrite(st: Aggregator, events: seq<Event>, now: int)
    requires st.initialized && Fresh(st, events, now)
    ensures Add(st, events, now) == Step(Write(Cleaned(st, now), LiveInputs(events, now), now), Ok(()))
  {
    CollectIsLiveInputs(Ids(Clean(st.events, now)), events, now);
  }

  /**
   * The store after a successful `add` (src/main.ts:165-177): under the key
   * of every live id, the last live input with that id and a positive
   * `expireIn` equal to its remaining lifetime; every other key as before.
   */
  lemma AddStore(st: Aggregator, events: seq<Event>, now: int)
    requires st.initialized && UniqueIds(st.events) && Fresh(st, events, now)
    ensures var r := Add(st, events, now).state;
      var p := LiveInputs(events, now);
      && (forall id :: id in Ids(p) ==>
            var e := LastById(p, id).value;
            && KeyOf(st.prefix, id) in r.store
            && r.store[KeyOf(st.prefix, id)] == Record(e, ExpireIn(e, now))
            && ExpireIn(e, now) > 0)
      && (forall k :: k !in KeysOf(st.prefix, p) ==> (k in r.store <==> k in st.store))
      && (forall k :: k !in KeysOf(st.prefix, p) && k in st.store ==> r.store[k] == st.store[k])
  {
    var p := LiveInputs(events, now);
    AddOutcome(st, events, now);
    CommitWrite(st.store, st.prefix, p, now);
  }

  /**
   * An input that is not live is skipped without error (src/main.ts:291-293):
   * it is not cached, and unless a live input shares its id its key is not
   * written.
   */
  lemma ExpiredInputDropped(st: Aggregator, events: seq<Event>, now: int, e: Event)
    requires st.initialized && UniqueIds(st.events) && Fresh(st, events, now)
    requires e in events && !IsLive(e, now)
    ensures var r := Add(st, events, now);
      && r.result == Ok(())
      && e !in r.state.events
      && (e.id !in Ids(LiveInputs(events, now)) ==>
            var k := KeyOf(st.prefix, e.id);
            (k in r.state.store <==> k in st.store) && (k in st.store ==> r.state.store[k] == st.store[k]))
  {
    var p := LiveInputs(events, now);
    AddOutcome(st, events, now);
    AddStore(st, events, now);
    KeysOfIds(st.prefix, p, e.id);
    assert e.id !in Ids(Clean(st.events, now));
  }

  /** `add` keeps the cache mirroring the store, whether it succeeds or throws. */
  lemma AddConsistent(st: Aggregator, events: seq<Event>, now: int)
    requires st.initialized && Consistent(st)
    ensures Consistent(Add(st, events, now).state)
  {
    CleanedConsistent(st, now);
    if Fresh(st, events, now) {
      var c := Clean(st.events, now);
      var p := LiveInputs(events, now);
      var r := Add(st, events, now).state;
      AddOutcome(st, events, now);
      forall e | e in r.events
        ensures KeyOf(st.prefix, e.id) in r.store && r.store[KeyOf(st.prefix, e.id)].value == e
      {
        CommitWriteAt(st.store, st.prefix, p, now, KeyOf(st.prefix, e.id));
        KeysOfIds(st.prefix, p, e.id);
        if e.id in Ids(p) {
          var x :| && x in p && KeyOf(st.prefix, e.id) == KeyOf(st.prefix, x.id)
                   && KeyOf(st.prefix, e.id) in r.store
                   && var y := LastById(p, x.id).value;
                      r.store[KeyOf(st.prefix, e.id)] == Record(y, ExpireIn(y, now));
          KeyOfInjective(st.prefix, e.id, x.id);
          assert e !in c;
        }
      }
    }
  }

  /**
   * After a successful `add` at `now` nothing in the cache has ended, so
   * the next call's clean at the same instant changes nothing, and inputs
   * whose ids meet neither the cache nor the added ones are fresh again.
   */
  lemma AddedStaysClean(st: Aggregator, a: seq<Event>, b: seq<Event>, now: int)
    requires st.initialized && UniqueIds(st.events) && Fresh(st, a, now) && Fresh(st, b, now)
    requires forall x, y :: x in a && y in b ==> x.id != y.id
    ensures var sa := Add(st, a, now).state;
      && Clean(sa.events, now) == sa.events
      && Fresh(sa, b, now)
  {
    var sa := Add(st, a, now).state;
    var pa := LiveInputs(a, now);
    AddOutcome(st, a, now);
    forall e | e in sa.events
      ensures !IsCleanable(e, now)
    {
      if e !in Clean(st.events, now) {
        var i :| 0 <= i < |pa| && pa[i] == e && e.id == pa[i].id && e.id !in Ids(pa[i + 1..]);
        CleanableIsExpired(e, now);
      }
    }
    CleanKeepsUncleanable(sa.events, now);
    forall y | y in b
      ensures y.id !in Ids(sa.events)
    {
    }
  }

  /**
   * The order in which events are added does not matter
   * (tests/add_test.ts:13-47): two calls with disjoint ids, neither cached,
   * leave the same cache, store and result in either order.
   */
  lemma AddOrderIndependent(st: Aggregator, a: seq<Event>, b: seq<Event>, now: int)
    requires st.initialized && UniqueIds(st.events) && Fresh(st, a, now) && Fresh(st, b, now)
    requires forall x, y :: x in a && y in b ==> x.id != y.id
    ensures Add(Add(st, a, now).state, b, now) == Add(Add(st, b, now).state, a, now)
    ensures Add(Add(st, a, now).state, b, now).result == Ok(())
  {
    var c := Clean(st.events, now);
    var pa, pb := LiveInputs(a, now), LiveInputs(b, now);
    var sa, sb := Add(st, a, now).state, Add(st, b, now).state;
    AddOutcome(st, a, now);
    AddOutcome(st, b, now);
    AddedStaysClean(st, a, b, now);
    AddedStaysClean(st, b, a, now);
    AddOutcome(sa, b, now);
    AddOutcome(sb, a, now);
    var ab, ba := Add(sa, b, now).state, Add(sb, a, now).state;
    assert forall e :: e in ab.events <==> e in ba.events;
    if |pa| > 0 || |pb| > 0 {
      StrictlySortedUnique(ab.events, ba.events);
    }
    assert Ids(pa) !! Ids(pb);
    CommitWritesCommute(st.store, st.prefix, pa, pb, now);
  }

  // ----- Removing -----

  /**
   * `remove` (src/main.ts:307-325) drops exactly the id it is given from the
   * cleaned cache and keeps the other entries in their order; it answers
   * whether the id was cached.
   */
  lemma RemoveOutcome(st: Aggregator, id: string, now: int)
    requires st.initialized && UniqueIds(st.events)
    ensures var r := Remove(st, id, now);
      var c := Clean(st.events, now);
      && r.result == Ok(id in Ids(c))
      && UniqueIds(r.state.events)
      && IsSubsequence(r.state.events, c)
      && (forall e :: e in r.state.events <==> e in c && e.id != id)
      && (forall x :: x != id ==> Lookup(r.state.events, x) == Lookup(c, x))
  {
    var c := Clean(st.events, now);
    var r := Remove(st, id, now).state;
    SubsequenceUnique(c, st.events);
    if id in Ids(c) {
      MapDeleteLookup(c, id);
      forall e
        ensures e in r.events <==> e in c && e.id != id
      {
        LookupUnique(r.events, e);
        LookupUnique(c, e);
      }
    } else {
      SubsequenceRefl(c);
    }
  }

  /** `remove` keeps the cache mirroring the store. */
  lemma RemoveConsistent(st: Aggregator, id: string, now: int)
    requires st.initialized && Consistent(st)
    ensures Consistent(Remove(st, id, now).state)
  {
    RemoveOutcome(st, id, now);
    var r := Remove(st, id, now).state;
    forall e | e in r.events
      ensures KeyOf(st.prefix, e.id) in r.store && r.store[KeyOf(st.prefix, e.id)].value == e
    {
      KeyOfInjective(st.prefix, e.id, id);
    }
  }

  /** The inputs of a call without those that have id `x`. */
  function Without(events: seq<Event>, x: string): (r: seq<Event>)
    ensures forall e :: e in r <==> e in events && e.id != x
  {
    if |events| == 0 then []
    else
      assert events == [events[0]] + events[1..];
      (if events[0].id == x then [] else [events[0]]) + Without(events[1..], x)
  }

  lemma {:induction false} LiveWithout(events: seq<Event>, x: string, now: int)
    ensures LiveInputs(Without(events, x), now) == Without(LiveInputs(events, now), x)
  {
    if |events| > 0 {
      LiveWithout(events[1..], x, now);
      var w := Without(events, x);
      if events[0].id == x {
        assert w == Without(events[1..], x);
      } else {
        assert w == [events[0]] + Without(events[1..], x);
        assert w[1..] == Without(events[1..], x);
      }
      var l := LiveInputs(events, now);
      if IsLive(events[0], now) {
        assert l == [events[0]] + LiveInputs(events[1..], now);
        assert l[1..] == LiveInputs(events[1..], now);
      } else {
        assert l == LiveInputs(events[1..], now);
      }
    }
  }

  lemma {:induction false} LastByIdWithout(ys: seq<Event>, x: string, id: string)
    ensures LastById(Without(ys, x), id) == if id == x then None else LastById(ys, id)
  {
    if |ys| > 0 {
      LastByIdWithout(ys[1..], x, id);
      var w := Without(ys, x);
      if ys[0].id != x {
        assert w == [ys[0]] + Without(ys[1..], x);
        assert w[1..] == Without(ys[1..], x);
      } else {
        assert w == Without(ys[1..], x);
      }
    }
  }

  lemma DropOneStrictlySorted(s: seq<Event>, i: nat)
    requires StrictlySortedByIds(s) && i < |s|
    ensures StrictlySortedByIds(s[..i] + s[i + 1..])
  {
    var r := s[..i] + s[i + 1..];
    forall j, k | 0 <= j < k < |r|
      ensures SegmentCompare(r[j].id, r[k].id) < 0
    {
      var j' := if j < i then j else j + 1;
      var k' := if k < i then k else k + 1;
      assert r[j] == s[j'] && r[k] == s[k'];
    }
  }

  /** The cache after adding `events` and then removing `x`, an id among the live inputs. */
  lemma RemoveAfterAddLeft(st: Aggregator, events: seq<Event>, x: string, now: int)
    requires st.initialized && UniqueIds(st.events) && Fresh(st, events, now)
    requires x in Ids(LiveInputs(events, now))
    ensures var r := Remove(Add(st, events, now).state, x, now);
      var c := Clean(st.events, now);
      var p := LiveInputs(events, now);
      && r.result == Ok(true)
      && StrictlySortedByIds(r.state.events)
      && forall e :: e in r.state.events <==> (e in c || LastById(p, e.id) == Some(e)) && e.id != x
  {
    var p := LiveInputs(events, now);
    var sa := Add(st, events, now).state;
    AddOutcome(st, events, now);
    AddedStaysClean(st, events, [], now);
    RemoveOutcome(sa, x, now);
    assert LastById(p, x).value in sa.events;
    DropOneStrictlySorted(sa.events, IndexOf(sa.events, x));
  }

  /** The cache after adding `events` without the inputs with id `x`. */
  lemma RemoveAfterAddRight(st: Aggregator, events: seq<Event>, x: string, now: int)
    requires st.initialized && UniqueIds(st.events) && Fresh(st, events, now)
    requires StrictlySortedByIds(Clean(st.events, now))
    ensures var r := Add(st, Without(events, x), now).state;
      var c := Clean(st.events, now);
      var p := LiveInputs(events, now);
      && StrictlySortedByIds(r.events)
      && forall e :: e in r.events <==> e in c || (LastById(p, e.id) == Some(e) && e.id != x)
  {
    var p := LiveInputs(events, now);
    var w := Without(events, x);
    assert Fresh(st, w, now);
    AddOutcome(st, w, now);
    LiveWithout(events, x, now);
    forall e: Event
      ensures LastById(LiveInputs(w, now), e.id) == Some(e) <==> LastById(p, e.id) == Some(e) && e.id != x
    {
      LastByIdWithout(p, x, e.id);
    }
  }

  /**
   * Removing an added event leaves the cache an `add` without it would have
   * built (tests/remove_test.ts:36-96), when the cache started out in key
   * order, as a new feed's empty cache is.
   */
  lemma RemoveAfterAdd(st: Aggregator, events: seq<Event>, x: string, now: int)
    requires st.initialized && UniqueIds(st.events) && Fresh(st, events, now)
    requires StrictlySortedByIds(Clean(st.events, now))
    requires x in Ids(LiveInputs(events, now))
    ensures var added := Add(st, events, now).state;
      && Remove(added, x, now).result == Ok(true)
      && Remove(added, x, now).state.events == Add(st, Without(events, x), now).state.events
  {
    var c := Clean(st.events, now);
    var left := Remove(Add(st, events, now).state, x, now).state.events;
    var right := Add(st, Without(events, x), now).state.events;
    RemoveAfterAddLeft(st, events, x, now);
    RemoveAfterAddRight(st, events, x, now);
    var y :| y in LiveInputs(events, now) && y.id == x;
    assert forall e :: e in c ==> e.id != x;
    StrictlySortedUnique(left, right);
  }

  /** After `removeAll` (src/main.ts:332-354) the feed is empty until something is added. */
  lemma RemoveAllEmpties(st: Aggregator, now: int, later: int, id: string)
    requires st.initialized
    ensures var r := RemoveAll(st, now).state;
      && Consistent(r)
      && GetAll(r, later) == Step(r, Ok([]))
      && Has(r, id, later) == Step(r, Ok(false))
  {
  }

  // ----- Lifecycle -----

  /** `#read` runs once (src/main.ts:111-113): a second read changes nothing. */
  lemma ReadOnce(st: Aggregator, scan: seq<Event>, again: seq<Event>)
    ensures Read(Read(st, scan), again) == Read(st, scan)
  {
  }

  /**
   * An instance built by the constructor alone is not initialized
   * (src/main.ts:34-46); `#checkInitialized` (src/main.ts:93-101) makes every
   * public call on it throw and change nothing.
   */
  lemma ConstructedRejects(prefix: Key, store: Store, id: string, events: seq<Event>, now: int,
                           render: seq<Event> -> string)
    ensures var st := Aggregator(false, prefix, [], store);
      && Get(st, id, now) == Step(st, Err(Uninitialized))
      && GetAll(st, now) == Step(st, Err(Uninitialized))
      && Has(st, id, now) == Step(st, Err(Uninitialized))
      && Add(st, events, now) == Step(st, Err(Uninitialized))
      && Remove(st, id, now) == Step(st, Err(Uninitialized))
      && RemoveAll(st, now) == Step(st, Err(Uninitialized))
      && ToString(st, now, render) == Step(st, Err(Uninitialized))
      && Dispose(st) == Err(Uninitialized)
  {
  }

  /** A feed opened over a store whose scan lists stored records mirrors the store. */
  lemma CreateConsistent(prefix: Key, store: Store, scan: seq<Event>, now: int)
    requires forall e :: e in scan ==> KeyOf(prefix, e.id) in store && store[KeyOf(prefix, e.id)].value == e
    ensures Consistent(Create(prefix, store, scan, now))
  {
  }

  lemma SetAllFreshStep(m: seq<Event>, ys: seq<Event>)
    requires UniqueIds(ys) && Ids(m) !! Ids(ys) && |ys| > 0
    ensures SetAll(m, ys) == SetAll(m + [ys[0]], ys[1..])
    ensures UniqueIds(ys[1..]) && Ids(m + [ys[0]]) !! Ids(ys[1..])
  {
    assert ys[0] in ys;
    UniqueTail(ys);
    IdsCons(ys);
    IdsConcat(m, [ys[0]]);
    assert Ids([ys[0]]) == {ys[0].id};
  }

  lemma AppendHead(m: seq<Event>, ys: seq<Event>)
    requires |ys| > 0
    ensures (m + [ys[0]]) + ys[1..] == m + ys
  {
    assert ys == [ys[0]] + ys[1..];
  }

  /** Building a map from entries with distinct new ids appends them in order. */
  lemma {:induction false} SetAllFresh(m: seq<Event>, ys: seq<Event>)
    requires UniqueIds(ys) && Ids(m) !! Ids(ys)
    ensures SetAll(m, ys) == m + ys
    decreases |ys|
  {
    if |ys| > 0 {
      var m' := m + [ys[0]];
      SetAllFreshStep(m, ys);
      SetAllFresh(m', ys[1..]);
      AppendHead(m, ys);
    }
  }

  // ----- Round trip through the store -----

  /** Every record under the prefix is stored under the key of its own event's id, as `#write` stores them. */
  ghost predicate KeyedById(prefix: Key, store: Store) {
    forall id :: KeyOf(prefix, id) in store ==> store[KeyOf(prefix, id)].value.id == id
  }

  /**
   * The other half of `Consistent`: every record under the prefix is keyed
   * by its event's id, and is cached unless `#clean` at `now` would drop it.
   */
  ghost predicate Complete(st: Aggregator, now: int) {
    && KeyedById(st.prefix, st.store)
    && forall id ::
         KeyOf(st.prefix, id) in st.store && !IsCleanable(st.store[KeyOf(st.prefix, id)].value, now) ==>
         st.store[KeyOf(st.prefix, id)].value in st.events
  }

  /**
   * `scan` is what the prefix scan of `#read` yields on `store`: the value of
   * each record under the prefix, once.
   */
  ghost predicate Lists(prefix: Key, store: Store, scan: seq<Event>) {
    && UniqueIds(scan)
    && forall e :: e in scan <==> KeyOf(prefix, e.id) in store && store[KeyOf(prefix, e.id)].value == e
  }

  /** A feed opened on a scan of its store caches every record the opening clean keeps. */
  lemma CreateComplete(prefix: Key, store: Store, scan: seq<Event>, now: int)
    requires KeyedById(prefix, store) && Lists(prefix, store, scan)
    ensures Complete(Create(prefix, store, scan, now), now)
  {
    forall id | KeyOf(prefix, id) in store && !IsCleanable(store[KeyOf(prefix, id)].value, now)
      ensures store[KeyOf(prefix, id)].value in Create(prefix, store, scan, now).events
    {
      var e := store[KeyOf(prefix, id)].value;
      assert e in scan;
      LastByIdUnique(scan, id);
      LookupUnique(scan, e);
    }
  }

  /** The opening clean of a later call keeps `Complete`. */
  lemma CleanedComplete(st: Aggregator, t: int, now: int)
    requires Complete(st, t) && t <= now
    ensures Complete(Cleaned(st, now), now)
  {
  }

  /** `add` keeps `Complete`, whether it succeeds or throws. */
  lemma AddComplete(st: Aggregator, events: seq<Event>, t: int, now: int)
    requires Consistent(st) && Complete(st, t) && t <= now
    ensures Complete(Add(st, events, now).state, now)
  {
    var r := Add(st, events, now).state;
    if st.initialized && Fresh(st, events, now) {
      var p := LiveInputs(events, now);
      var c := Clean(st.events, now);
      AddOutcome(st, events, now);
      forall id | KeyOf(st.prefix, id) in r.store
        ensures r.store[KeyOf(st.prefix, id)].value.id == id
        ensures !IsCleanable(r.store[KeyOf(st.prefix, id)].value, now) ==>
                  r.store[KeyOf(st.prefix, id)].value in r.events
      {
        var k := KeyOf(st.prefix, id);
        CommitWriteAt(st.store, st.prefix, p, now, k);
        KeysOfIds(st.prefix, p, id);
        if id in Ids(p) {
          var x :| x in p && k == KeyOf(st.prefix, x.id);
          KeyOfInjective(st.prefix, x.id, id);
        } else {
          var e := st.store[k].value;
          assert !IsCleanable(e, now) ==> e in c;
        }
      }
    } else {
      CleanedComplete(st, t, now);
    }
  }

  /** `remove` keeps `Complete`. */
  lemma RemoveComplete(st: Aggregator, id: string, t: int, now: int)
    requires Complete(st, t) && t <= now
    ensures Complete(Remove(st, id, now).state, now)
  {
    var c := Clean(st.events, now);
    if st.initialized && id in Ids(c) {
      var r := Remove(st, id, now).state;
      var i := IndexOf(c, id);
      forall id' | KeyOf(st.prefix, id') in r.store && !IsCleanable(r.store[KeyOf(st.prefix, id')].value, now)
        ensures r.store[KeyOf(st.prefix, id')].value in r.events
      {
        var e := st.store[KeyOf(st.prefix, id')].value;
        assert e in c;
        DropOneKeeps(c, i, e);
      }
    } else {
      CleanedComplete(st, t, now);
    }
  }

  /** Dropping position `i` keeps every element that differs from the one there. */
  lemma DropOneKeeps(c: seq<Event>, i: nat, e: Event)
    requires i < |c| && e in c && e != c[i]
    ensures e in c[..i] + c[i + 1..]
  {
    var j :| 0 <= j < |c| && c[j] == e;
    if j < i {
      assert (c[..i] + c[i + 1..])[j] == e;
    } else {
      assert (c[..i] + c[i + 1..])[j - 1] == e;
    }
  }

  /** `removeAll` keeps `Complete`: every record it leaves under the prefix was already due for cleaning. */
  lemma RemoveAllComplete(st: Aggregator, t: int, now: int)
    requires Complete(st, t) && t <= now
    ensures Complete(RemoveAll(st, now).state, now)
  {
    if st.initialized {
      var c := Clean(st.events, now);
      var r := RemoveAll(st, now).state;
      forall id | KeyOf(st.prefix, id) in r.store
        ensures IsCleanable(r.store[KeyOf(st.prefix, id)].value, now)
      {
      }
    }
  }

  /**
   * Opening does not reorder a scan whose ids are distinct: the cache is the
   * scan minus what `#clean` drops, in scan order (src/main.ts:122-126),
   * not the key order a write would have produced (src/main.ts:179-184).
   */
  lemma CreateInScanOrder(prefix: Key, store: Store, scan: seq<Event>, now: int)
    requires UniqueIds(scan)
    ensures Create(prefix, store, scan, now).events == Clean(scan, now)
  {
    SetAllFresh([], scan);
    assert [] + scan == scan;
  }

  /**
   * Reopening: a new instance over the same store and prefix, loading the
   * store's records under the prefix, holds the same events as the old
   * instance after its next clean.
   */
  lemma Reopen(st: Aggregator, scan: seq<Event>, now: int)
    requires Consistent(st) && Complete(st, now)
    requires Lists(st.prefix, st.store, scan)
    ensures var r := Create(st.prefix, st.store, scan, now);
      && Consistent(r) && Complete(r, now)
      && forall e :: e in r.events <==> e in Clean(st.events, now)
  {
    var r := Create(st.prefix, st.store, scan, now);
    CreateConsistent(st.prefix, st.store, scan, now);
    CreateComplete(st.prefix, st.store, scan, now);
    forall e
      ensures e in r.events <==> e in Clean(st.events, now)
    {
      LastByIdUnique(scan, e.id);
      LookupUnique(scan, e);
    }
  }

  /**
   * Two inputs with one id in one call both pass the duplicate check
   * (src/main.ts:287): the call succeeds, and the later input is the one
   * cached and stored.
   */
  lemma SameCallDuplicates(prefix: Key, store: Store, now: int)
    ensures var st := Create(prefix, store, [], now);
      var first := Event("e", now + 10, None, []);
      var second := Event("e", now + 20, None, []);
      var r := Add(st, [first, second], now);
      && r.result == Ok(())
      && r.state.events == [second]
      && KeyOf(prefix, "e") in r.state.store
      && r.state.store[KeyOf(prefix, "e")] == Record(second, 20)
  {
    var st := Create(prefix, store, [], now);
    var first := Event("e", now + 10, None, []);
    var second := Event("e", now + 20, None, []);
    var cmp := ByKeys(prefix);
    assert Ids(st.events) == {};
    assert Collect({}, [], now) == Ok([]);
    assert [second] + [] == [second];
    assert Collect({}, [second], now) == Ok([second]);
    assert [first] + [second] == [first, second];
    assert Collect({}, [first, second], now) == Ok([first, second]);
    assert [] + [first, second] == [first, second];
    assert Sort(cmp, [second]) == [second];
    SegmentCompareZero("e", "e");
    assert Sort(cmp, [first, second]) == [first, second];
    MapSetInPlace([first], second);
    assert MapSet([first], second) == [second];
    assert SetAll([], [first, second]) == SetAll([first], [second]);
    CommitWrite(store, prefix, [first, second], now);
  }
}
