/** Call sequences on one statement decorator, with what the contracts of
    `execute`, `fetch` and `fetchAll` let a caller conclude. */
module Scenarios {
  import opened Wrappers
  import opened Params
  import opened Cache
  import opened Statement

  /** Executing twice with the same input: the second call is served from the
      cache, returns what the first returned and makes `fetchAll` give the
      same rows, and the wrapped statement is executed at most once. */
  method RepeatedExecuteIsServedFromCache(s: MongoStatementCache, input: Params)
    returns (r1: bool, rows1: Result<Option<seq<Row>>, Unsupported>,
             r2: bool, rows2: Result<Option<seq<Row>>, Unsupported>)
    requires s.statement.fetchAllResult.Some?
    modifies s`params, s`fetchResults, s`cursor, s.cache`store, s.statement`executions
    ensures r2 == r1 && rows2 == rows1 && rows1.Success?
    ensures s.statement.executions == old(s.statement.executions)
         || s.statement.executions == old(s.statement.executions) + [input]
  {
    r1 := s.Execute(input);
    rows1 := s.FetchAll(FETCH_BOTH, None);
    ghost var q := s.Resolved();
    ghost var executed := s.statement.executions;
    assert s.cache.Cached(q).Some?;
    r2 := s.Execute(input);
    MergeAllIdempotent(old(s.params), input);
    assert s.Resolved() == q;
    rows2 := s.FetchAll(FETCH_BOTH, None);
    assert s.statement.executions == executed;
  }

  /** When `fetchAll` of the wrapped statement fails, nothing is cached, so an
      identical second `execute` runs the wrapped statement again. */
  method FailedFetchIsNotCached(s: MongoStatementCache, input: Params) returns (r1: bool, r2: bool)
    requires s.statement.fetchAllResult.None?
    requires s.cache.Cached(ResolveQuery(s.query, MergeAll(s.params, input))).None?
    modifies s`params, s`fetchResults, s`cursor, s.cache`store, s.statement`executions
    ensures !r1 && !r2
    ensures s.statement.executions == old(s.statement.executions) + [input, input]
    ensures s.cache.store == old(s.cache.store)
  {
    r1 := s.Execute(input);
    MergeAllIdempotent(old(s.params), input);
    r2 := s.Execute(input);
  }

  /** A hit does not rewind the cursor: after one `fetch`, re-executing the
      same query serves the cached rows from the second row on. */
  method HitKeepsCursor(s: MongoStatementCache, input: Params)
    returns (first: Result<Option<Row>, Unsupported>, next: Result<Option<Row>, Unsupported>)
    requires s.statement.fetchAllResult.Some?
    requires s.cache.Cached(ResolveQuery(s.query, MergeAll(s.params, input))).None?
    modifies s`params, s`fetchResults, s`cursor, s.cache`store, s.statement`executions
    ensures var rows := s.statement.fetchAllResult.value;
      first == Success(RowAt(Some(rows), 0)) && next == Success(RowAt(Some(rows), 1))
    ensures s.cursor == 2
  {
    var _ := s.Execute(input);
    first := s.Fetch(FETCH_BOTH, FETCH_ORI_NEXT, 0);
    MergeAllIdempotent(old(s.params), input);
    var _ := s.Execute(input);
    next := s.Fetch(FETCH_BOTH, FETCH_ORI_NEXT, 0);
  }
}
