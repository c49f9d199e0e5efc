/** `MongoCache`: the keyed store facade in front of the Apix/Mongo backend.
    The backend is its map from hash key to entry; the digest (md5 in the
    source) is a deterministic function handed in by the caller. */
module Cache {
  import opened Wrappers

  /** A result row as the driver returns it; the cache never looks inside. */
  type Row

  /** What a miss stores: the fetched rows ('state') and the value `execute`
      returned ('value'). */
  datatype Entry = Entry(state: seq<Row>, value: bool)

  class MongoCache {
    /** The digest of a query text; nothing about it is assumed beyond being a
        function, so equal texts always give equal keys. */
    const digest: string -> string
    /** The backend's documents, by hash key. */
    var store: map<string, Entry>

    constructor (digest: string -> string, store: map<string, Entry>)
      ensures this.digest == digest && this.store == store
    {
      this.digest := digest;
      this.store := store;
    }

    /** `generateHashKey`: the key under which a query text is stored. */
    function GenerateHashKey(statement: string): (key: string)
    {
      digest(statement)
    }

    /** The entry a load of `query` finds, if any. */
    ghost function Cached(query: string): Option<Entry>
      reads this
    {
      var key := GenerateHashKey(query);
      if key in store then Some(store[key]) else None
    }

    /** `load($query)`: the entry stored under the query's hash key, or None
        (the backend's null); the store is not changed. */
    method Load(query: string) returns (e: Option<Entry>)
      ensures e == Cached(query)
      ensures e.Some? <==> GenerateHashKey(query) in store
    {
      var key := GenerateHashKey(query);
      if key in store {
        e := Some(store[key]);
      } else {
        e := None;
      }
    }

    /** `save($query, $results)`: overwrites whatever is stored under the
        query's hash key; a later load of any text with that key finds
        `results`, and every other key is left alone. */
    method Save(query: string, results: Entry)
      modifies this`store
      ensures store == old(store)[GenerateHashKey(query) := results]
      ensures Cached(query) == Some(results)
      ensures forall q :: GenerateHashKey(q) == GenerateHashKey(query) ==> Cached(q) == Some(results)
      ensures forall q :: GenerateHashKey(q) != GenerateHashKey(query) ==> Cached(q) == old(Cached(q))
    {
      store := store[GenerateHashKey(query) := results];
    }
  }
}
