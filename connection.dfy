/** `MongoPDOCache`: the connection decorator. Only `prepare` is modelled; the
    cache it shares with its statements is given to it. */
module Connection {
  import opened Wrappers
  import opened Cache
  import opened Statement

  class MongoPdoCache {
    const cache: MongoCache

    constructor (cache: MongoCache)
      ensures this.cache == cache
    {
      this.cache := cache;
    }

    /** `prepare`: a failed preparation of the wrapped connection (`false`,
        here null) is passed through; otherwise the prepared statement is
        wrapped in a fresh decorator over the same query and this cache, with
        no parameters, no rows and the cursor at 0. */
    method Prepare(query: string, prepared: PdoStatement?) returns (s: MongoStatementCache?)
      ensures prepared == null ==> s == null
      ensures prepared != null ==>
        && s != null && fresh(s)
        && s.statement == prepared && s.query == query && s.cache == cache
        && s.params == [] && s.fetchResults == Some([]) && s.cursor == 0
    {
      if prepared == null {
        return null;
      }
      s := new MongoStatementCache(prepared, query, cache);
    }
  }
}
