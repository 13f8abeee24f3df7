/**
 * `CalendarFeedAggregator` (src/main.ts:16-387): an in-memory cache of
 * calendar events backed by a key-value store, cleaned of ended events at the
 * start of every public call.
 *
 * Each public method becomes a step function from the state before the call
 * to a `Step`: the state after the call and what the call returned or threw.
 * The clock reading `now` and the store's prefix scan are parameters; the
 * calendar encoder behind `toString` is a function parameter.
 */
module CalendarFeed {
  import opened Types
  import opened Expiry
  import opened EventMap
  import opened Sorting
  import opened KvStore

  /**
   * One aggregator instance: the `#initialized` flag, the key prefix, the
   * cache `#eventsStored` as its values in iteration order, and the records of
   * the database.
   */
  datatype Aggregator = Aggregator(initialized: bool, prefix: Key, events: seq<Event>, store: Store)

  /** The state after a call, and its return value or the error it threw. */
  datatype Step<+T> = Step(state: Aggregator, result: Result<T>)

  /**
   * `#clean` (src/main.ts:141-147): drops the cached events that have an end
   * at or before `now`; the others keep their order.
   */
  function Clean(s: seq<Event>, now: int): (r: seq<Event>)
    ensures forall e :: e in r <==> e in s && !IsCleanable(e, now)
    ensures IsSubsequence(r, s)
  {
    if |s| == 0 then []
    else
      assert s == [s[0]] + s[1..];
      if IsCleanable(s[0], now) then Clean(s[1..], now)
      else
        var t := Clean(s[1..], now);
        assert ([s[0]] + t)[1..] == t;
        [s[0]] + t
  }

  /** The instance after `#clean(now)`. */
  function Cleaned(st: Aggregator, now: int): Aggregator {
    st.(events := Clean(st.events, now))
  }

  /**
   * `#read` (src/main.ts:109-129): on an instance that has not read yet,
   * `set`s every scanned value under its id and marks the instance
   * initialized; on one that has, does nothing.
   */
  function Read(st: Aggregator, scan: seq<Event>): (r: Aggregator)
    ensures r.initialized && r.prefix == st.prefix && r.store == st.store
    ensures st.initialized ==> r == st
    ensures !st.initialized && UniqueIds(st.events) ==>
      && UniqueIds(r.events)
      && forall id ::
           Lookup(r.events, id) == if id in Ids(scan) then LastById(scan, id) else Lookup(st.events, id)
  {
    if st.initialized then st
    else
      SetAllLookupWhenUnique(st.events, scan);
      st.(events := SetAll(st.events, scan), initialized := true)
  }

  lemma SetAllLookupWhenUnique(m: seq<Event>, ys: seq<Event>)
    ensures UniqueIds(m) ==>
      && UniqueIds(SetAll(m, ys))
      && forall id :: Lookup(SetAll(m, ys), id) == if id in Ids(ys) then LastById(ys, id) else Lookup(m, id)
  {
    if UniqueIds(m) {
      SetAllLookup(m, ys);
    }
  }

  /**
   * `create` (src/main.ts:57-86): a new instance over `store` that has run
   * `#read` on the prefix scan `scan` and then `#clean(now)`. The cache holds,
   * for every scanned id, the last value scanned for it unless that one ended.
   */
  function Create(prefix: Key, store: Store, scan: seq<Event>, now: int): (r: Aggregator)
    ensures r.initialized && r.prefix == prefix && r.store == store
    ensures UniqueIds(r.events)
    ensures forall e :: e in r.events <==> LastById(scan, e.id) == Some(e) && !IsCleanable(e, now)
  {
    var loaded := Read(Aggregator(false, prefix, [], store), scan);
    assert forall e :: e in loaded.events <==> LastById(scan, e.id) == Some(e) by {
      forall e
        ensures e in loaded.events <==> LastById(scan, e.id) == Some(e)
      {
        LookupUnique(loaded.events, e);
      }
    }
    SubsequenceUnique(Clean(loaded.events, now), loaded.events);
    Cleaned(loaded, now)
  }

  /**
   * `get` (src/main.ts:222-230): after cleaning, the cached event with id
   * `id`, if any.
   */
  function Get(st: Aggregator, id: string, now: int): (r: Step<Option<Event>>)
    ensures !st.initialized ==> r == Step(st, Err(Uninitialized))
    ensures st.initialized ==> r.state == Cleaned(st, now) && r.result.Ok?
    ensures st.initialized ==>
      (r.result.value.Some? <==> exists e :: e in st.events && e.id == id && !IsCleanable(e, now))
    ensures st.initialized && r.result.value.Some? ==>
      var e := r.result.value.value; e in st.events && e.id == id && !IsCleanable(e, now)
  {
    if !st.initialized then Step(st, Err(Uninitialized))
    else
      var c := Cleaned(st, now);
      Step(c, Ok(Lookup(c.events, id)))
  }

  /** `getAll` (src/main.ts:237-247): the cleaned cache in iteration order. */
  function GetAll(st: Aggregator, now: int): (r: Step<seq<Event>>)
    ensures !st.initialized ==> r == Step(st, Err(Uninitialized))
    ensures st.initialized ==> r.state == Cleaned(st, now) && r.result == Ok(r.state.events)
    ensures st.initialized ==> forall e :: e in r.result.value <==> e in st.events && !IsCleanable(e, now)
    ensures st.initialized ==> IsSubsequence(r.result.value, st.events)
  {
    if !st.initialized then Step(st, Err(Uninitialized))
    else
      var c := Cleaned(st, now);
      Step(c, Ok(c.events))
  }

  /** `has` (src/main.ts:255-263): whether the cleaned cache holds the id. */
  function Has(st: Aggregator, id: string, now: int): (r: Step<bool>)
    ensures !st.initialized ==> r == Step(st, Err(Uninitialized))
    ensures st.initialized ==> r.state == Cleaned(st, now) && r.result.Ok?
    ensures st.initialized ==>
      (r.result.value <==> exists e :: e in st.events && e.id == id && !IsCleanable(e, now))
  {
    if !st.initialized then Step(st, Err(Uninitialized))
    else
      var c := Cleaned(st, now);
      Step(c, Ok(id in Ids(c.events)))
  }

  /**
   * The loop of `add` (src/main.ts:281-296): throws on an input whose id is
   * cached, skips inputs that are not live, and keeps the others in input
   * order. `cached` is the cache as it stood before the loop, so ids accepted
   * earlier in the same call are not checked against.
   */
  function Collect(cached: set<string>, events: seq<Event>, now: int): (r: Result<seq<Event>>)
    ensures r.Err? <==> exists e :: e in events && e.id in cached
    ensures r.Err? ==> r.error == AlreadyAdded
    ensures r.Ok? ==> forall e :: e in r.value <==> e in events && IsLive(e, now)
    ensures r.Ok? ==> IsSubsequence(r.value, events)
  {
    if |events| == 0 then Ok([])
    else
      assert events == [events[0]] + events[1..];
      if events[0].id in cached then Err(AlreadyAdded)
      else
        match Collect(cached, events[1..], now)
        case Err(err) => Err(err)
        case Ok(rest) =>
          if IsLive(events[0], now) then
            assert ([events[0]] + rest)[1..] == rest;
            Ok([events[0]] + rest)
          else Ok(rest)
  }

  /**
   * `#write` (src/main.ts:157-185): with nothing pending, nothing happens.
   * Otherwise one batch sets every pending event under its key with
   * `expireIn` set to its remaining lifetime, and the cache is rebuilt from
   * its values followed by the pending ones, sorted with `#sortByKeys`.
   */
  function Write(st: Aggregator, pending: seq<Event>, now: int): Aggregator {
    if |pending| == 0 then st
    else
      st.(store := Commit(st.store, WriteBatch(st.prefix, pending, now)),
          events := SetAll([], Sort(ByKeys(st.prefix), st.events + pending)))
  }

  /**
   * `add` (src/main.ts:274-299). After cleaning it throws `AlreadyAdded`,
   * writing nothing, if any input id is cached; otherwise it writes the live
   * inputs.
   */
  function Add(st: Aggregator, events: seq<Event>, now: int): (r: Step<()>)
    ensures !st.initialized ==> r == Step(st, Err(Uninitialized))
    ensures st.initialized && (exists e :: e in events && e.id in Ids(Clean(st.events, now))) ==>
      r == Step(Cleaned(st, now), Err(AlreadyAdded))
    ensures st.initialized && !(exists e :: e in events && e.id in Ids(Clean(st.events, now))) ==>
      && r.result == Ok(())
      && r.state.initialized
      && r.state.prefix == st.prefix
  {
    if !st.initialized then Step(st, Err(Uninitialized))
    else
      var c := Cleaned(st, now);
      match Collect(Ids(c.events), events, now)
      case Err(err) => Step(c, Err(err))
      case Ok(pending) => Step(Write(c, pending, now), Ok(()))
  }

  /**
   * `remove` (src/main.ts:307-325): after cleaning, `false` if the id is not
   * cached; otherwise deletes its key from the store, drops it from the cache
   * and returns `true`.
   */
  function Remove(st: Aggregator, id: string, now: int): (r: Step<bool>)
    ensures !st.initialized ==> r == Step(st, Err(Uninitialized))
    ensures st.initialized && id !in Ids(Clean(st.events, now)) ==> r == Step(Cleaned(st, now), Ok(false))
    ensures st.initialized && id in Ids(Clean(st.events, now)) ==>
      var c := Clean(st.events, now);
      var i := IndexOf(c, id);
      && r.result == Ok(true)
      && r.state == st.(events := c[..i] + c[i + 1..], store := st.store - {KeyOf(st.prefix, id)})
  {
    if !st.initialized then Step(st, Err(Uninitialized))
    else
      var c := Cleaned(st, now);
      match Lookup(c.events, id)
      case None => Step(c, Ok(false))
      case Some(e) =>
        Step(c.(store := c.store - {KeyOf(c.prefix, e.id)}, events := MapDelete(c.events, id)), Ok(true))
  }

  /**
   * `removeAll` (src/main.ts:332-354): after cleaning, one batch deletes the
   * key of every cached id and the cache is emptied. The result is the
   * committed batch.
   */
  function RemoveAll(st: Aggregator, now: int): (r: Step<seq<Mutation>>)
    ensures !st.initialized ==> r == Step(st, Err(Uninitialized))
    ensures st.initialized ==>
      var c := Clean(st.events, now);
      && r.result.Ok?
      && r.state == st.(events := [], store := st.store - KeysOf(st.prefix, c))
      && MutatedKeysOf(r.result.value) == KeysOf(st.prefix, c)
      && forall m :: m in r.result.value ==> m.DeleteKey?
  {
    if !st.initialized then Step(st, Err(Uninitialized))
    else
      var c := Cleaned(st, now);
      var batch := DeleteBatch(c.prefix, c.events);
      CommitDelete(c.store, c.prefix, c.events);
      DeleteBatchKeys(c.prefix, c.events);
      Step(c.(store := Commit(c.store, batch), events := []), Ok(batch))
  }

  /** The keys a batch touches. */
  function MutatedKeysOf(batch: seq<Mutation>): set<Key> {
    set m | m in batch :: m.key
  }

  lemma {:induction false} DeleteBatchKeys(prefix: Key, events: seq<Event>)
    ensures MutatedKeysOf(DeleteBatch(prefix, events)) == KeysOf(prefix, events)
    ensures forall m :: m in DeleteBatch(prefix, events) ==> m.DeleteKey?
  {
    if |events| > 0 {
      DeleteBatchKeys(prefix, events[1..]);
      KeysOfCons(prefix, events);
      var b := DeleteBatch(prefix, events);
      assert b == [DeleteKey(KeyOf(prefix, events[0].id))] + DeleteBatch(prefix, events[1..]);
      assert forall m :: m in b <==> m == b[0] || m in DeleteBatch(prefix, events[1..]);
    }
  }

  /**
   * `toString` (src/main.ts:361-375): the calendar encoder `render` applied
   * to the events `getAll` would return.
   */
  function ToString(st: Aggregator, now: int, render: seq<Event> -> string): (r: Step<string>)
    ensures !st.initialized ==> r == Step(st, Err(Uninitialized))
    ensures st.initialized ==>
      r.state == GetAll(st, now).state && r.result == Ok(render(GetAll(st, now).result.value))
  {
    if !st.initialized then Step(st, Err(Uninitialized))
    else
      var c := Cleaned(st, now);
      Step(c, Ok(render(c.events)))
  }

  /**
   * `[Symbol.dispose]` (src/main.ts:382-386): throws on an uninitialized
   * instance; otherwise closes the database, which the model does not track.
   */
  function Dispose(st: Aggregator): (r: Result<()>)
    ensures r.Ok? <==> st.initialized
    ensures r.Err? ==> r.error == Uninitialized
  {
    if !st.initialized then Err(Uninitialized) else Ok(())
  }
}
