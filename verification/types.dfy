/**
 * Shared vocabulary of the calendar feed aggregator: events, store keys and
 * the results of operations that can throw.
 */
module Types {

  /** An optional value. The source's `null` and `undefined` both become `None`. */
  datatype Option<+T> = None | Some(value: T)

  /** A key of the backing key-value store: namespace segments, then an event id. */
  type Key = seq<string>

  /**
   * A calendar feed event. Instants are milliseconds since the epoch. `details`
   * stands for the display fields (summary, description, location, ...) that
   * the aggregator passes through to the calendar encoder without looking at them.
   */
  datatype Event = Event(id: string, start: int, end: Option<int>, details: seq<(string, string)>)

  /** The errors the aggregator throws. */
  datatype Error =
    | Uninitialized  // an instance used before `#read` has run
    | AlreadyAdded   // `add` was given an id that is already cached

  /** The outcome of an operation that may throw. */
  datatype Result<+T> = Ok(value: T) | Err(error: Error)

  /** The store key of the event with id `id` under the namespace `prefix`. */
  function KeyOf(prefix: Key, id: string): (k: Key)
    ensures |k| == |prefix| + 1 && k[..|prefix|] == prefix && k[|prefix|] == id
  {
    prefix + [id]
  }

  /** Distinct ids give distinct keys under one prefix. */
  lemma KeyOfInjective(prefix: Key, a: string, b: string)
    ensures KeyOf(prefix, a) == KeyOf(prefix, b) <==> a == b
  {
    if KeyOf(prefix, a) == KeyOf(prefix, b) {
      assert KeyOf(prefix, a)[|prefix|] == KeyOf(prefix, b)[|prefix|];
    }
  }
}
