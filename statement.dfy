/** `MongoStatementCache`: a prepared statement decorator that records the
    bound parameters, serves `execute` from the cache when the resolved query
    text has been seen, and emulates `fetch`/`fetchAll` on the rows it holds. */
module Statement {
  import opened Wrappers
  import opened Text
  import opened Params
  import opened Cache

  /** `PDO::FETCH_BOTH` and `PDO::FETCH_ORI_NEXT`. */
  const FETCH_BOTH: int := 4
  const FETCH_ORI_NEXT: int := 0

  /** The three `NotImplementedException`s of the argument guard. */
  datatype Unsupported = StyleUnsupported | OrientationUnsupported | OffsetUnsupported

  datatype Check = Supported | Rejected(reason: Unsupported)

  /** `ensureArgumentsSupported`: accepts exactly the style FETCH_BOTH, an
      orientation that is absent or FETCH_ORI_NEXT, and offset 0, and reports
      the first check that fails in the order style, orientation, offset.
      An absent orientation (`false`, or `null` from `fetchAll`) is None. */
  function EnsureArgumentsSupported(style: int, orientation: Option<int>, offset: int): (c: Check)
    ensures c == Supported <==>
      style == FETCH_BOTH && (orientation == None || orientation == Some(FETCH_ORI_NEXT)) && offset == 0
    ensures style != FETCH_BOTH ==> c == Rejected(StyleUnsupported)
    ensures style == FETCH_BOTH && orientation != None && orientation != Some(FETCH_ORI_NEXT) ==>
      c == Rejected(OrientationUnsupported)
    ensures style == FETCH_BOTH && (orientation == None || orientation == Some(FETCH_ORI_NEXT)) && offset != 0 ==>
      c == Rejected(OffsetUnsupported)
  {
    if style != FETCH_BOTH then Rejected(StyleUnsupported)
    else if orientation.Some? && orientation.value != FETCH_ORI_NEXT then Rejected(OrientationUnsupported)
    else if offset != 0 then Rejected(OffsetUnsupported)
    else Supported
  }

  /** PHP's `count` of the held results: the number of rows, and 1 for `false`
      (PHP 5 counts any scalar but null as 1). */
  function CountResults(results: Option<seq<Row>>): (n: nat)
    ensures n == 0 <==> results == Some([])
  {
    if results.Some? then |results.value| else 1
  }

  /** `$results[$i]`: the row at `i`, or null past the end or on `false`. */
  function RowAt(results: Option<seq<Row>>, i: nat): Option<Row>
  {
    if results.Some? && i < |results.value| then Some(results.value[i]) else None
  }

  datatype BindKind = ColumnBind | ParamBind | ValueBind

  /** The wrapped PDO statement, seen only through its answers: what `execute`
      and `fetchAll` return (None is `false`), its own `rowCount`, and what a
      bind call returns. It records the binds forwarded to it and the
      parameter arrays it is executed with. */
  class PdoStatement {
    const executeResult: bool
    const fetchAllResult: Option<seq<Row>>
    const driverRowCount: int
    const bindResult: bool
    var binds: seq<(BindKind, ParamKey, string)>
    var executions: seq<Params>

    constructor (executeResult: bool, fetchAllResult: Option<seq<Row>>, driverRowCount: int, bindResult: bool)
      ensures this.executeResult == executeResult && this.fetchAllResult == fetchAllResult
      ensures this.driverRowCount == driverRowCount && this.bindResult == bindResult
      ensures binds == [] && executions == []
    {
      this.executeResult := executeResult;
      this.fetchAllResult := fetchAllResult;
      this.driverRowCount := driverRowCount;
      this.bindResult := bindResult;
      binds := [];
      executions := [];
    }

    method Bind(kind: BindKind, k: ParamKey, v: string) returns (ok: bool)
      modifies this`binds
      ensures binds == old(binds) + [(kind, k, v)] && ok == bindResult
    {
      binds := binds + [(kind, k, v)];
      ok := bindResult;
    }

    method Execute(input: Params) returns (ok: bool)
      modifies this`executions
      ensures executions == old(executions) + [input] && ok == executeResult
    {
      executions := executions + [input];
      ok := executeResult;
    }

    method FetchAll() returns (rows: Option<seq<Row>>)
      ensures rows == fetchAllResult
    {
      rows := fetchAllResult;
    }

    method RowCount() returns (n: int)
      ensures n == driverRowCount
    {
      n := driverRowCount;
    }
  }

  class MongoStatementCache {
    const statement: PdoStatement
    const query: string
    const cache: MongoCache
    /** Bound parameters, used only to build the cache key. */
    var params: Params
    /** The rows being served; None is the `false` a failed `fetchAll` left. */
    var fetchResults: Option<seq<Row>>
    /** Position of the next `fetch` in `fetchResults`. */
    var cursor: nat

    constructor (statement: PdoStatement, query: string, cache: MongoCache)
      ensures this.statement == statement && this.query == query && this.cache == cache
      ensures params == [] && fetchResults == Some([]) && cursor == 0
    {
      this.statement := statement;
      this.query := query;
      this.cache := cache;
      params := [];
      fetchResults := Some([]);
      cursor := 0;
    }

    /** The query text the current parameters resolve to. */
    ghost function Resolved(): string
      reads this
    {
      ResolveQuery(query, params)
    }

    /** `bindColumn`: records the value under the column's name and forwards
        the bind. */
    method BindColumn(column: ParamKey, param: string) returns (ok: bool)
      modifies this`params, statement`binds
      ensures params == Put(old(params), column, param)
      ensures statement.binds == old(statement.binds) + [(ColumnBind, column, param)]
      ensures ok == statement.bindResult
    {
      params := Put(params, column, param);
      ok := statement.Bind(ColumnBind, column, param);
    }

    /** `bindParam`: records the variable's value at bind time and forwards
        the bind. */
    method BindParam(parameter: ParamKey, variable: string) returns (ok: bool)
      modifies this`params, statement`binds
      ensures params == Put(old(params), parameter, variable)
      ensures statement.binds == old(statement.binds) + [(ParamBind, parameter, variable)]
      ensures ok == statement.bindResult
    {
      params := Put(params, parameter, variable);
      ok := statement.Bind(ParamBind, parameter, variable);
    }

    /** `bindValue`: records the value and forwards the bind. */
    method BindValue(parameter: ParamKey, value: string) returns (ok: bool)
      modifies this`params, statement`binds
      ensures params == Put(old(params), parameter, value)
      ensures statement.binds == old(statement.binds) + [(ValueBind, parameter, value)]
      ensures ok == statement.bindResult
    {
      params := Put(params, parameter, value);
      ok := statement.Bind(ValueBind, parameter, value);
    }

    /** `insertQueryParams`: the query with each parameter's value put in place
        of its placeholder, parameter by parameter in map order. */
    method InsertQueryParams(query: string, params: Params) returns (inserted: string)
      ensures inserted == ResolveQuery(query, params)
    {
      inserted := query;
      var i := 0;
      while i < |params|
        invariant 0 <= i <= |params|
        invariant inserted == ResolveQuery(query, params[..i])
      {
        var (pkey, pval) := params[i];
        assert params[..i + 1][..i] == params[..i];
        inserted := ReplaceAll(inserted, Placeholder(pkey), pval);
        i := i + 1;
      }
      assert params[..i] == params;
    }

    /** The `foreach` at the head of `execute`: each input entry overwrites or
        appends its key, in the input's order. */
    method MergeInput(input: Params)
      modifies this`params
      ensures params == MergeAll(old(params), input)
    {
      var i := 0;
      while i < |input|
        invariant 0 <= i <= |input|
        invariant params == MergeAll(old(params), input[..i])
      {
        assert input[..i + 1][..i] == input[..i];
        params := Put(params, input[i].0, input[i].1);
        i := i + 1;
      }
      assert input[..i] == input;
    }

    /** `execute`: merges the input over the bound parameters and resolves the
        query. On a hit it serves the cached rows and value without touching
        the wrapped statement, the cache or the cursor. On a miss it executes
        and fetches from the wrapped statement, holds what `fetchAll` gave and
        rewinds the cursor; it saves rows and value under the resolved query
        unless `fetchAll` returned `false`, in which case it returns false. */
    method Execute(input: Params) returns (r: bool)
      modifies this`params, this`fetchResults, this`cursor, cache`store, statement`executions
      ensures params == MergeAll(old(params), input)
      ensures var q := Resolved(); old(cache.Cached(q)).Some? ==>
        var e := old(cache.Cached(q)).value;
        && r == e.value
        && fetchResults == Some(e.state)
        && cursor == old(cursor)
        && cache.store == old(cache.store)
        && statement.executions == old(statement.executions)
      ensures var q := Resolved(); old(cache.Cached(q)).None? ==>
        && statement.executions == old(statement.executions) + [input]
        && fetchResults == statement.fetchAllResult
        && cursor == 0
        && (statement.fetchAllResult.None? ==> !r && cache.store == old(cache.store))
        && (statement.fetchAllResult.Some? ==>
              && r == statement.executeResult
              && cache.store == old(cache.store)[cache.GenerateHashKey(q) :=
                   Entry(statement.fetchAllResult.value, statement.executeResult)])
    {
      MergeInput(input);
      var q := InsertQueryParams(query, params);
      var data := cache.Load(q);
      if data.Some? {
        fetchResults := Some(data.value.state);
        return data.value.value;
      }

      var value := statement.Execute(input);
      var state := statement.FetchAll();
      fetchResults := state;
      cursor := 0;
      if state.None? {
        return false;
      }

      cache.Save(q, Entry(state.value, value));
      return value;
    }

    /** `fetch`: after the argument guard, returns the row at the cursor (null
        once past the end) and advances the cursor by one either way. A
        rejected call changes nothing. */
    method Fetch(style: int, orientation: int, offset: int) returns (r: Result<Option<Row>, Unsupported>)
      modifies this`cursor
      ensures EnsureArgumentsSupported(style, Some(orientation), offset).Rejected? ==>
        r == Failure(EnsureArgumentsSupported(style, Some(orientation), offset).reason)
        && cursor == old(cursor)
      ensures EnsureArgumentsSupported(style, Some(orientation), offset) == Supported ==>
        r == Success(RowAt(fetchResults, old(cursor))) && cursor == old(cursor) + 1
    {
      var check := EnsureArgumentsSupported(style, Some(orientation), offset);
      if check.Rejected? {
        return Failure(check.reason);
      }
      r := Success(RowAt(fetchResults, cursor));
      cursor := cursor + 1;
    }

    /** `fetchAll`: after the guard (which sees the fetch argument where it
        expects an orientation), returns the held results as they are; the
        constructor arguments are ignored. Nothing changes. */
    method FetchAll(style: int, fetchArgument: Option<int>) returns (r: Result<Option<seq<Row>>, Unsupported>)
      ensures r.Success? <==> style == FETCH_BOTH && (fetchArgument == None || fetchArgument == Some(FETCH_ORI_NEXT))
      ensures r.Success? ==> r.value == fetchResults
      ensures r.Failure? ==> r.error == (if style != FETCH_BOTH then StyleUnsupported else OrientationUnsupported)
    {
      var check := EnsureArgumentsSupported(style, fetchArgument, 0);
      if check.Rejected? {
        return Failure(check.reason);
      }
      r := Success(fetchResults);
    }

    /** `rowCount`: the number of held rows when positive, otherwise the
        wrapped statement's own count. */
    method RowCount() returns (n: int)
      ensures fetchResults.Some? && |fetchResults.value| > 0 ==> n == |fetchResults.value|
      ensures fetchResults == Some([]) ==> n == statement.driverRowCount
      ensures fetchResults.None? ==> n == 1
    {
      var cachedCount := CountResults(fetchResults);
      if cachedCount > 0 {
        n := cachedCount;
      } else {
        n := statement.RowCount();
      }
    }
  }
}
