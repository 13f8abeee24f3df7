/**
 * The part of the Deno KV database the aggregator touches: records under
 * keys, written and deleted by atomic batches (`atomic().mutate(...).commit()`)
 * or by a single `delete`. The database's own reclamation of expired records is
 * not modelled: a record stays until it is deleted or overwritten.
 */
module KvStore {
  import opened Types
  import opened Expiry
  import opened EventMap

  /** A stored event with the `expireIn` annotation it was written with. */
  datatype Record = Record(value: Event, expireIn: int)

  type Store = map<Key, Record>

  /** One mutation of an atomic batch. */
  datatype Mutation =
    | SetKey(key: Key, value: Event, expireIn: int)
    | DeleteKey(key: Key)

  function Apply(store: Store, m: Mutation): Store {
    match m
    case SetKey(k, v, t) => store[k := Record(v, t)]
    case DeleteKey(k) => store - {k}
  }

  /**
   * A committed batch: its mutations take effect in order, so the last
   * mutation of a key decides. Commits are taken to succeed, as the batches
   * the aggregator builds carry no version checks.
   */
  function Commit(store: Store, batch: seq<Mutation>): Store
    decreases |batch|
  {
    if |batch| == 0 then store else Commit(Apply(store, batch[0]), batch[1..])
  }

  /** The store keys of a list of events. */
  function KeysOf(prefix: Key, s: seq<Event>): set<Key> {
    set e | e in s :: KeyOf(prefix, e.id)
  }

  lemma KeysOfCons(prefix: Key, s: seq<Event>)
    requires |s| > 0
    ensures KeysOf(prefix, s) == {KeyOf(prefix, s[0].id)} + KeysOf(prefix, s[1..])
  {
    assert s == [s[0]] + s[1..];
  }

  /** `k` is the key of some event with id in `s` exactly when it is `KeyOf` such an id. */
  lemma KeysOfIds(prefix: Key, s: seq<Event>, id: string)
    ensures KeyOf(prefix, id) in KeysOf(prefix, s) <==> id in Ids(s)
  {
    if KeyOf(prefix, id) in KeysOf(prefix, s) {
      var e :| e in s && KeyOf(prefix, e.id) == KeyOf(prefix, id);
      KeyOfInjective(prefix, e.id, id);
    }
  }

  /** The batch of `set` mutations `#write` sends (src/main.ts:165-171). */
  function WriteBatch(prefix: Key, pending: seq<Event>, now: int): seq<Mutation> {
    if |pending| == 0 then []
    else
      var e := pending[0];
      [SetKey(KeyOf(prefix, e.id), e, ExpireIn(e, now))] + WriteBatch(prefix, pending[1..], now)
  }

  /** The batch of `delete` mutations `removeAll` sends (src/main.ts:341-351). */
  function DeleteBatch(prefix: Key, events: seq<Event>): seq<Mutation> {
    if |events| == 0 then [] else [DeleteKey(KeyOf(prefix, events[0].id))] + DeleteBatch(prefix, events[1..])
  }

  /**
   * Committing a write batch stores, under the key of every written id, the
   * last event given for that id with its time-to-live; other keys keep
   * their records.
   */
  lemma {:induction false} CommitWrite(store: Store, prefix: Key, pending: seq<Event>, now: int)
    ensures var r := Commit(store, WriteBatch(prefix, pending, now));
      && (forall id :: id in Ids(pending) ==>
            var e := LastById(pending, id).value;
            KeyOf(prefix, id) in r && r[KeyOf(prefix, id)] == Record(e, ExpireIn(e, now)))
      && (forall k :: k !in KeysOf(prefix, pending) ==> (k in r <==> k in store))
      && (forall k :: k !in KeysOf(prefix, pending) && k in store ==> r[k] == store[k])
    decreases |pending|
  {
    if |pending| > 0 {
      var e0 := pending[0];
      var k0 := KeyOf(prefix, e0.id);
      var s1 := Apply(store, SetKey(k0, e0, ExpireIn(e0, now)));
      var r := Commit(store, WriteBatch(prefix, pending, now));
      assert r == Commit(s1, WriteBatch(prefix, pending[1..], now));
      CommitWrite(s1, prefix, pending[1..], now);
      KeysOfCons(prefix, pending);
      IdsCons(pending);
      KeysOfIds(prefix, pending[1..], e0.id);
    }
  }

  /** Committing a delete batch removes exactly the keys of the listed events. */
  lemma {:induction false} CommitDelete(store: Store, prefix: Key, events: seq<Event>)
    ensures Commit(store, DeleteBatch(prefix, events)) == store - KeysOf(prefix, events)
    decreases |events|
  {
    if |events| > 0 {
      var k0 := KeyOf(prefix, events[0].id);
      CommitDelete(store - {k0}, prefix, events[1..]);
      KeysOfCons(prefix, events);
      assert (store - {k0}) - KeysOf(prefix, events[1..]) == store - KeysOf(prefix, events);
    }
  }

  /** `CommitWrite` at one key. */
  lemma CommitWriteAt(store: Store, prefix: Key, p: seq<Event>, now: int, k: Key)
    ensures var r := Commit(store, WriteBatch(prefix, p, now));
      if k in KeysOf(prefix, p) then
        exists e :: && e in p && k == KeyOf(prefix, e.id) && k in r
                    && var x := LastById(p, e.id).value; r[k] == Record(x, ExpireIn(x, now))
      else
        (k in r <==> k in store) && (k in r ==> r[k] == store[k])
  {
    CommitWrite(store, prefix, p, now);
    if k in KeysOf(prefix, p) {
      var e :| e in p && k == KeyOf(prefix, e.id);
      assert e.id in Ids(p);
    }
  }

  /**
   * Write batches over disjoint ids commute: the store after two such
   * batches does not depend on their order.
   */
  lemma CommitWritesCommute(store: Store, prefix: Key, p: seq<Event>, q: seq<Event>, now: int)
    requires Ids(p) !! Ids(q)
    ensures Commit(Commit(store, WriteBatch(prefix, p, now)), WriteBatch(prefix, q, now))
         == Commit(Commit(store, WriteBatch(prefix, q, now)), WriteBatch(prefix, p, now))
  {
    var sp := Commit(store, WriteBatch(prefix, p, now));
    var sq := Commit(store, WriteBatch(prefix, q, now));
    var spq := Commit(sp, WriteBatch(prefix, q, now));
    var sqp := Commit(sq, WriteBatch(prefix, p, now));
    forall k
      ensures k in spq <==> k in sqp
      ensures k in spq ==> spq[k] == sqp[k]
    {
      CommitWriteAt(store, prefix, p, now, k);
      CommitWriteAt(sp, prefix, q, now, k);
      CommitWriteAt(store, prefix, q, now, k);
      CommitWriteAt(sq, prefix, p, now, k);
      if k in KeysOf(prefix, p) {
        var e :| e in p && k == KeyOf(prefix, e.id);
        KeysOfIds(prefix, q, e.id);
        assert e.id in Ids(p);
      } else if k in KeysOf(prefix, q) {
        var e :| e in q && k == KeyOf(prefix, e.id);
        KeysOfIds(prefix, p, e.id);
        assert e.id in Ids(q);
      }
    }
    assert spq == sqp;
  }
}
