# Result cache for PDO prepared statements, modelled in Dafny

The PHP library `pdo-mongo-cache` wraps a PDO connection and its prepared
statements so that the result rows of a statement come from a MongoDB-backed
cache whenever the same resolved query text has been executed before. This
project models the statement decorator `MongoStatementCache` and the store
facade `MongoCache` of `PDO/Cache/MongoCacheDecorator.php`, together with the
connection decorator's `prepare`, and proves what they promise.

- `Text` — `str_replace` for one search string (`ReplaceAll`), with `explode`
  (`Split`) and `implode` (`Join`) as a second description: the
  replacement is the join, with the new text, of the pieces between the
  occurrences, none of which contains the search string, and each cut is
  made at the leftmost remaining occurrence.
- `Params` — the statement's parameter array: an insertion-ordered map from
  non-empty parameter names to string values (`Params`, a sequence of pairs
  with unique keys). `Put` is `$params[$k] = $v` (an existing key keeps its
  place), `MergeAll` is the `foreach` merge at the top of `execute`,
  `Placeholder` adds the leading `:` and `ResolveQuery` is what
  `insertQueryParams` computes: every parameter, in map order, replaces every
  occurrence of its placeholder in the text produced so far.
- `Cache` — `MongoCache`: the backend is its map `store` from hash key to
  `Entry(state, value)` (the rows and the value `execute` returned). The
  digest of `generateHashKey` (md5 in the code) is a function handed to the
  constructor; nothing is assumed about it beyond being a function, so equal
  texts give equal keys and texts with equal keys share an entry.
- `Statement` — the argument guard `EnsureArgumentsSupported`, a stand-in
  `PdoStatement` for the wrapped driver statement (fixed answers for
  `execute`, `fetchAll`, `rowCount` and bind calls, with a log of the binds
  and executions it receives), and the class `MongoStatementCache` with the
  fields `params`, `fetchResults` and `cursor` that its methods update.
- `Connection` — `MongoPdoCache.Prepare`.
- `Scenarios` — call sequences showing what callers can conclude: a repeated
  `execute` is answered from the cache, a failed `fetchAll` is not cached, and
  a hit does not rewind the cursor.

Rows are an opaque type `Row`: the cache never inspects them. `fetchResults`
is an `Option<seq<Row>>` because the miss path stores the wrapped statement's
`fetchAll` result as it is, including its `false` (None). PHP's `count` of
that `false` is 1 and indexing it gives null, so after a failed `fetchAll`
`rowCount` returns 1 and `fetch` returns no row.

What the code does at its edges, and what the model therefore does:
- a cache hit sets the rows but does not rewind `cursor` (lines 122-125);
- `fetch` past the end returns null and still advances `cursor` (line 148);
- only `FETCH_BOTH` is accepted; there is no ASSOC/NUM projection (line 184);
- `fetchAll` checks its fetch argument as if it were a cursor orientation and
  ignores its constructor arguments (line 155);
- the miss path does not look at what `execute` returned, although the comment
  at line 135 says it caches only if execute and fetch succeeded: it caches the
  rows and value whenever `fetchAll` did not return `false`, so a failed
  `execute` whose `fetchAll` yields an array is cached with value false
  (lines 127-139);
- a failed `fetchAll` still overwrites `fetchResults` and rewinds `cursor`
  (lines 129-130);
- a key bound as `:id` and a key `id` given to `execute` are two entries of the
  parameter array, and only the first is substituted, so the execute-time value
  does not reach the cache key (lines 116-118, 175-178).

## Model

| member | source | states |
|---|---|---|
| `Text.ReplaceAll` | PDO/Cache/MongoCacheDecorator.php:177 | `str_replace` for one search string: a replacement at least as long as the search string never shortens the text, and one at most as long never lengthens it |
| `Text.ReplaceAllIsJoinOfSplit` | PDO/Cache/MongoCacheDecorator.php:177 | `str_replace(pat, rep, s)` equals `implode(rep, explode(pat, s))`: exactly the occurrences found left to right are replaced |
| `Text.SplitJoinRoundTrip` | PDO/Cache/MongoCacheDecorator.php:177 | joining the pieces of a split with the search string gives the original text back |
| `Text.SplitPiecesAreFree` | PDO/Cache/MongoCacheDecorator.php:177 | no piece contains the search string; an occurrence that overlaps one already replaced is not replaced, as in PHP |
| `Text.SplitCutsAtLeftmostOccurrence` | PDO/Cache/MongoCacheDecorator.php:177 | the first cut is at the leftmost occurrence of the search string (it occurs right after the first piece and nowhere inside it), and a text that is not cut contains no occurrence |
| `Text.ReplaceAllWithoutMatch` | PDO/Cache/MongoCacheDecorator.php:177 | a text that does not contain the search string is returned unchanged |
| `Text.ReplaceAllBySelf` | PDO/Cache/MongoCacheDecorator.php:177 | replacing a string by itself leaves any text unchanged |
| `Params.Put` | PDO/Cache/MongoCacheDecorator.php:96-109 | `$params[$k] = $v`: afterwards `k` maps to `v`, every other key keeps its value, an existing key keeps its position and a new one is appended |
| `Params.PutPresent` | PDO/Cache/MongoCacheDecorator.php:117 | setting a key to the value it already has leaves the array unchanged |
| `Params.MergeAll` | PDO/Cache/MongoCacheDecorator.php:116-118 | the `foreach` merge: the merged array holds exactly the keys bound before and the keys of the input |
| `Params.MergeAllLookup` | PDO/Cache/MongoCacheDecorator.php:116-118 | after the merge a key given to `execute` has the given value and every other key keeps its bound value |
| `Params.MergeAllKeys` | PDO/Cache/MongoCacheDecorator.php:116-118 | the merged keys are the keys bound before, in their order, followed by the input keys not bound yet, in input order |
| `Params.MarkedAndBareKeysStaySeparate` | PDO/Cache/MongoCacheDecorator.php:116-118 | merging `id`=`2` over a bound `:id`=`1` keeps both as separate entries, `:id` first |
| `Params.MergeAllIdempotent` | PDO/Cache/MongoCacheDecorator.php:115-121 | merging the same input twice gives the same parameters as merging it once, so a repeated `execute` resolves the same text |
| `Params.Placeholder` | PDO/Cache/MongoCacheDecorator.php:176 | the placeholder starts with `:`; it is the key itself exactly when the key starts with `:`, and otherwise `:` followed by the key |
| `Params.ResolveQueryWithoutParams` | PDO/Cache/MongoCacheDecorator.php:173-181 | with an empty parameter array the query is returned unchanged |
| `Params.ResolveQuery` | PDO/Cache/MongoCacheDecorator.php:173-181 | what `insertQueryParams` computes: each parameter, in map order, replaces every occurrence of its placeholder in the text produced so far; its properties are the lemmas below |
| `Params.ResolveQueryConcat` | PDO/Cache/MongoCacheDecorator.php:175-178 | resolving with `a` followed by `b` is resolving with `a` and then resolving the result with `b`: substitution follows map order |
| `Params.ResolveQueryNoPlaceholder` | PDO/Cache/MongoCacheDecorator.php:173-181 | a query containing no `:` resolves to itself whatever the parameters |
| `Params.ResolveQueryExample` | PDO/Cache/MongoCacheDecorator.php:173-181 | `id=:id` with `id` bound to `5` resolves to `id=5` |
| `Params.ResolveQueryPrefixCollision` | PDO/Cache/MongoCacheDecorator.php:175-178 | `:id,:ids` with `id`=`5` then `ids`=`x` resolves to `5,5s`: after `:id` is substituted, `:ids` is no longer found |
| `Params.BareKeyAfterMarkedKeyIsNotSubstituted` | PDO/Cache/MongoCacheDecorator.php:175-178 | `id=:id` with `:id`=`1` then `id`=`2` resolves to `id=1`: the execute-time value is lost from the resolved text |
| `Cache.MongoCache.constructor` | PDO/Cache/MongoCacheDecorator.php:60-62 | the facade starts over the given backend contents and digest |
| `Cache.MongoCache.Load` | PDO/Cache/MongoCacheDecorator.php:64-66 | `load` returns the entry stored under the query's hash key, or nothing when that key is absent |
| `Cache.MongoCache.Save` | PDO/Cache/MongoCacheDecorator.php:68-70 | `save` overwrites the entry under the query's hash key; every text with that key then loads the saved entry and every other key is unchanged |
| `Cache.MongoCache.GenerateHashKey` | PDO/Cache/MongoCacheDecorator.php:75-77 | the hash key is the digest of the query text, so equal texts always give the same key |
| `Statement.EnsureArgumentsSupported` | PDO/Cache/MongoCacheDecorator.php:183-195 | the guard passes exactly for style FETCH_BOTH, orientation absent or FETCH_ORI_NEXT, and offset 0, and reports the style first, then the orientation, then the offset |
| `Statement.CountResults` | PDO/Cache/MongoCacheDecorator.php:165-166 | PHP's `count` of the held results is 0 exactly when they are an empty array, the one case in which `rowCount` falls back to the wrapped statement (a held `false` counts as 1) |
| `Statement.RowAt` | PDO/Cache/MongoCacheDecorator.php:148 | models the index `$fetchResults[$cursor]` (the row, or null past the end or on `false`); it has no contract of its own, and `Statement.MongoStatementCache.Fetch` states the property |
| `Statement.MongoStatementCache.constructor` | PDO/Cache/MongoCacheDecorator.php:87-94 | a new decorator wraps the statement, query and cache with no parameters, an empty row set and the cursor at 0 |
| `Statement.MongoStatementCache.BindColumn` | PDO/Cache/MongoCacheDecorator.php:96-99 | records the value under the column, forwards the bind and returns the wrapped statement's answer |
| `Statement.MongoStatementCache.BindParam` | PDO/Cache/MongoCacheDecorator.php:101-104 | records the variable's value under the parameter, forwards the bind and returns the wrapped statement's answer |
| `Statement.MongoStatementCache.BindValue` | PDO/Cache/MongoCacheDecorator.php:106-109 | records the value under the parameter, forwards the bind and returns the wrapped statement's answer |
| `Statement.MongoStatementCache.MergeInput` | PDO/Cache/MongoCacheDecorator.php:116-118 | the loop leaves the parameters equal to the merge of the input over the old parameters |
| `Statement.MongoStatementCache.InsertQueryParams` | PDO/Cache/MongoCacheDecorator.php:173-181 | the loop returns the text `ResolveQuery` gives for the query and the parameters |
| `Statement.MongoStatementCache.Execute` | PDO/Cache/MongoCacheDecorator.php:115-140 | merges the input; on a hit returns the cached value and serves the cached rows with the wrapped statement, the cache and the cursor untouched; on a miss executes once, holds the fetched rows, rewinds the cursor, and either returns false with the cache untouched (fetchAll returned false) or saves rows and value under the resolved query and returns that value |
| `Statement.MongoStatementCache.Fetch` | PDO/Cache/MongoCacheDecorator.php:145-149 | a rejected call returns the guard's reason and leaves the cursor; an accepted one returns the row at the cursor, or null past the end, and advances the cursor by exactly one |
| `Statement.MongoStatementCache.FetchAll` | PDO/Cache/MongoCacheDecorator.php:154-158 | succeeds exactly for style FETCH_BOTH and a fetch argument that is null or FETCH_ORI_NEXT, then returns the held results unchanged; nothing moves |
| `Statement.MongoStatementCache.RowCount` | PDO/Cache/MongoCacheDecorator.php:164-167 | the number of held rows when positive, the wrapped statement's count when there are none, and 1 for a held `false` |
| `Connection.MongoPdoCache.Prepare` | PDO/Cache/MongoCacheDecorator.php:42-46 | a failed preparation is passed through; otherwise a fresh decorator over the prepared statement, the query and the shared cache |
| `Scenarios.RepeatedExecuteIsServedFromCache` | PDO/Cache/MongoCacheDecorator.php:115-140 | a second `execute` with the same input returns the first's value, `fetchAll` gives the same rows, and the wrapped statement runs at most once |
| `Scenarios.FailedFetchIsNotCached` | PDO/Cache/MongoCacheDecorator.php:127-133 | when `fetchAll` fails nothing is cached, both calls return false and the wrapped statement runs twice |
| `Scenarios.HitKeepsCursor` | PDO/Cache/MongoCacheDecorator.php:122-148 | after a miss and one `fetch`, a hit on the same query leaves the cursor, so the next `fetch` returns the second row |

## Left out

- `MongoPDOCache` construction and `instantiateCache` (lines 18-22, 48-51): they build `\MongoClient` and Apix objects; the model's `MongoPdoCache` and `MongoCache` take the cache and its backend contents as constructor arguments.
- `MongoPDOCache::query` (lines 27-37): it calls the statement decorator's constructor with the wrong arguments, saves without results and returns the statement text, so there is no coherent behaviour to state.
- `fetchColumn` (lines 160-162): a pass-through to the wrapped statement with the column fixed at 0; nothing of the cache is involved.
- `Cache.MongoCache.GenerateHashKey`: md5 is not modelled; the digest is an arbitrary function, so the model does not assume that different texts get different keys.
- `Statement.PdoStatement`: the PDO driver and the database are not modelled; each wrapped statement gives fixed answers for `execute`, `fetchAll`, `rowCount` and binds, independent of the parameters.
- The Apix/Mongo backend: only its key/value behaviour is modelled; serialisation to JSON, backend failures and sharing of the backend between processes are not.
- `Statement.MongoStatementCache.BindParam` and `BindColumn`: PHP's by-reference binding is not modelled; the value copied at bind time is what is stored, as the code stores it.
- PHP loose comparisons in the guard, integer (positional) parameter keys and the empty key: styles, orientations and offsets are integers compared exactly, and parameter names are non-empty strings.
- `Statement.MongoStatementCache.FetchAll`: the constructor arguments are not a parameter because the code ignores them.
- PHP warnings (undefined index in `fetch`, `count` of `false`) are not modelled; only the values PHP 5 returns are.
- Strings: Dafny strings are sequences of characters, while PHP's `str_replace` and `md5` work on bytes; the two readings agree on text that is valid UTF-8, and the model does not cover other byte strings.
- Parameter values are strings; PHP's `str_replace` also accepts other scalars and converts them to strings (null to "", true to "1", numbers to their decimal form), which the model does not do.
