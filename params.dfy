/** The statement's bound parameters: a PHP array from parameter name to value,
    which keeps its keys in insertion order and overwrites an existing key in
    its original position; and the textual insertion of those values into the
    query template that yields the cache key's input. */
module Params {
  import opened Wrappers
  import opened Text

  /** A parameter name, with or without its leading ':'. */
  type ParamKey = k: string | |k| > 0 witness ":"

  type Binding = (ParamKey, string)

  function Keys(p: seq<Binding>): (ks: seq<ParamKey>)
    ensures |ks| == |p|
  {
    if p == [] then [] else [p[0].0] + Keys(p[1..])
  }

  /** No key appears twice, as in a PHP array. */
  predicate UniqueKeys(p: seq<Binding>)
  {
    p == [] || (p[0].0 !in Keys(p[1..]) && UniqueKeys(p[1..]))
  }

  /** An insertion-ordered map from parameter name to bound value. */
  type Params = p: seq<Binding> | UniqueKeys(p)

  /** `$params[$k]`, or None when the key is not set. */
  function Lookup(p: seq<Binding>, k: ParamKey): (r: Option<string>)
    ensures r.Some? <==> k in Keys(p)
  {
    if p == [] then None
    else if p[0].0 == k then Some(p[0].1)
    else Lookup(p[1..], k)
  }

  /** `$params[$k] = $v`: an existing key keeps its position and gets the new
      value, a new key goes at the end, every other entry is unchanged. */
  function Put(p: Params, k: ParamKey, v: string): (r: Params)
    ensures Lookup(r, k) == Some(v)
    ensures forall k' :: k' != k ==> Lookup(r, k') == Lookup(p, k')
    ensures Keys(r) == if k in Keys(p) then Keys(p) else Keys(p) + [k]
  {
    if p == [] then assert [(k, v)][1..] == []; [(k, v)]
    else if p[0].0 == k then [(k, v)] + p[1..]
    else [p[0]] + Put(p[1..], k, v)
  }

  /** Setting a key to the value it already has changes nothing. */
  lemma {:induction false} PutPresent(p: Params, k: ParamKey, v: string)
    requires Lookup(p, k) == Some(v)
    ensures Put(p, k, v) == p
  {
    if p != [] && p[0].0 != k {
      PutPresent(p[1..], k, v);
    }
  }

  /** `foreach ($input as $k => $v) $params[$k] = $v;` */
  function MergeAll(p: Params, input: seq<Binding>): (r: Params)
    ensures forall k :: k in Keys(r) <==> k in Keys(p) || k in Keys(input)
    decreases |input|
  {
    if input == [] then p
    else
      var n := |input| - 1;
      KeysSnoc(input[..n], input[n]);
      assert input[..n] + [input[n]] == input;
      Put(MergeAll(p, input[..n]), input[n].0, input[n].1)
  }

  lemma {:induction false} KeysSnoc(q: seq<Binding>, b: Binding)
    ensures Keys(q + [b]) == Keys(q) + [b.0]
  {
    if q != [] {
      assert (q + [b])[1..] == q[1..] + [b];
      KeysSnoc(q[1..], b);
    }
  }

  lemma {:induction false} LookupLast(input: Params, k: ParamKey)
    requires |input| > 0
    ensures var n := |input| - 1;
      Lookup(input, k) ==
        if k == input[n].0 then Some(input[n].1) else Lookup(input[..n], k)
    decreases |input|
  {
    var n := |input| - 1;
    if n > 0 && input[0].0 != k {
      LookupLast(input[1..], k);
      assert input[1..][..n - 1] == input[..n][1..];
      assert input[..n][0] == input[0];
    } else if n > 0 {
      KeysAt(input[1..], n - 1);
      assert input[..n][0] == input[0];
    }
  }

  lemma {:induction false} UniqueKeysPrefix(p: Params, n: nat)
    requires n <= |p|
    ensures UniqueKeys(p[..n])
  {
    if n > 0 {
      UniqueKeysPrefix(p[1..], n - 1);
      assert p[..n][1..] == p[1..][..n - 1];
      KeysPrefix(p[1..], n - 1);
    }
  }

  lemma {:induction false} KeysPrefix(p: seq<Binding>, n: nat)
    requires n <= |p|
    ensures forall k :: k in Keys(p[..n]) ==> k in Keys(p)
  {
    if n > 0 {
      KeysPrefix(p[1..], n - 1);
      assert p[..n][1..] == p[1..][..n - 1];
    }
  }

  /** After the merge, a key given in the input has the input's value, and
      every other key keeps the value bound before. */
  lemma {:induction false} MergeAllLookup(p: Params, input: Params, k: ParamKey)
    ensures Lookup(MergeAll(p, input), k) ==
      if k in Keys(input) then Lookup(input, k) else Lookup(p, k)
    decreases |input|
  {
    if input != [] {
      var n := |input| - 1;
      UniqueKeysPrefix(input, n);
      MergeAllLookup(p, input[..n], k);
      LookupLast(input, k);
    }
  }

  /** The input keys not in `bound`, in input order. */
  function NewKeys(bound: seq<ParamKey>, keys: seq<ParamKey>): (r: seq<ParamKey>)
    decreases |keys|
  {
    if keys == [] then []
    else
      var n := |keys| - 1;
      NewKeys(bound, keys[..n]) + if keys[n] in bound then [] else [keys[n]]
  }

  /** The last key of an array with unique keys does not occur before it. */
  lemma {:induction false} LastKeyIsFresh(input: Params)
    requires |input| > 0
    ensures input[|input| - 1].0 !in Keys(input[..|input| - 1])
  {
    var n := |input| - 1;
    if n > 0 {
      var pre := input[..n];
      LastKeyIsFresh(input[1..]);
      assert pre[0] == input[0];
      assert pre[1..] == input[1..][..n - 1];
      assert input[1..][n - 1] == input[n];
      assert Keys(pre) == [input[0].0] + Keys(pre[1..]);
      KeysAt(input[1..], n - 1);
    }
  }

  lemma NewKeysSnoc(bound: seq<ParamKey>, before: seq<Binding>, b: Binding)
    ensures NewKeys(bound, Keys(before + [b])) ==
      NewKeys(bound, Keys(before)) + if b.0 in bound then [] else [b.0]
  {
    KeysSnoc(before, b);
    var ks := Keys(before + [b]);
    assert ks[..|ks| - 1] == Keys(before);
  }

  lemma MergeAllSnoc(p: Params, before: seq<Binding>, b: Binding)
    ensures MergeAll(p, before + [b]) == Put(MergeAll(p, before), b.0, b.1)
  {
    assert (before + [b])[..|before|] == before;
  }

  /** The merged array's keys: the keys bound before, in their order, then
      the input keys that were not bound yet, in input order. */
  lemma {:induction false} MergeAllKeys(p: Params, input: Params)
    ensures Keys(MergeAll(p, input)) == Keys(p) + NewKeys(Keys(p), Keys(input))
    decreases |input|
  {
    if input != [] {
      var n := |input| - 1;
      var b := input[n];
      var before := input[..n];
      assert before + [b] == input;
      UniqueKeysPrefix(input, n);
      MergeAllKeys(p, before);
      LastKeyIsFresh(input);
      MergeAllSnoc(p, before, b);
      NewKeysSnoc(Keys(p), before, b);
    }
  }

  lemma {:induction false} MergeAllAbsorbed(q: Params, input: seq<Binding>)
    requires forall i :: 0 <= i < |input| ==> Lookup(q, input[i].0) == Some(input[i].1)
    ensures MergeAll(q, input) == q
    decreases |input|
  {
    if input != [] {
      var n := |input| - 1;
      MergeAllAbsorbed(q, input[..n]);
      PutPresent(q, input[n].0, input[n].1);
    }
  }

  lemma {:induction false} LookupAt(p: Params, i: nat)
    requires i < |p|
    ensures Lookup(p, p[i].0) == Some(p[i].1)
  {
    if i > 0 {
      LookupAt(p[1..], i - 1);
      KeysAt(p[1..], i - 1);
    }
  }

  lemma {:induction false} KeysAt(p: seq<Binding>, i: nat)
    requires i < |p|
    ensures p[i].0 in Keys(p)
  {
    if i > 0 {
      KeysAt(p[1..], i - 1);
    }
  }

  /** Merging the same input twice is the same as merging it once: the
      effective parameters of a repeated `execute` do not drift. */
  lemma MergeAllIdempotent(p: Params, input: Params)
    ensures MergeAll(MergeAll(p, input), input) == MergeAll(p, input)
  {
    var q := MergeAll(p, input);
    forall i | 0 <= i < |input| ensures Lookup(q, input[i].0) == Some(input[i].1) {
      MergeAllLookup(p, input, input[i].0);
      KeysAt(input, i);
      LookupAt(input, i);
    }
    MergeAllAbsorbed(q, input);
  }

  /** The placeholder a key stands for in the query: the key itself when it
      starts with ':', otherwise the key with ':' in front. */
  function Placeholder(k: ParamKey): (pk: ParamKey)
    ensures pk[0] == ':'
    ensures pk == k <==> k[0] == ':'
    ensures pk != k ==> pk == [':'] + k
  {
    if k[0] != ':' then [':'] + k else k
  }

  /** `insertQueryParams($query, $params)`: each parameter in map order
      replaces every occurrence of its placeholder in the text produced so
      far. */
  function ResolveQuery(query: string, params: seq<Binding>): (resolved: string)
    decreases |params|
  {
    if params == [] then query
    else
      var n := |params| - 1;
      ReplaceAll(ResolveQuery(query, params[..n]), Placeholder(params[n].0), params[n].1)
  }

  /** With no parameters the template is its own resolution. */
  lemma ResolveQueryWithoutParams(query: string)
    ensures ResolveQuery(query, []) == query
  {
  }

  /** Substitution follows the map order: resolving with the parameters `a`
      followed by `b` is resolving with `a`, then resolving the text it produced
      with `b`. */
  lemma {:induction false} ResolveQueryConcat(query: string, a: seq<Binding>, b: seq<Binding>)
    ensures ResolveQuery(query, a + b) == ResolveQuery(ResolveQuery(query, a), b)
    decreases |b|
  {
    if b == [] {
      assert a + b == a;
    } else {
      var n := |b| - 1;
      assert b == b[..n] + [b[n]];
      assert a + b == (a + b[..n]) + [b[n]];
      ResolveQueryConcat(query, a, b[..n]);
      ResolveQuerySnoc(query, a + b[..n], b[n]);
      ResolveQuerySnoc(ResolveQuery(query, a), b[..n], b[n]);
    }
  }

  lemma ResolveQuerySnoc(query: string, params: seq<Binding>, b: Binding)
    ensures ResolveQuery(query, params + [b]) ==
      ReplaceAll(ResolveQuery(query, params), Placeholder(b.0), b.1)
  {
    assert (params + [b])[..|params|] == params;
  }

  /** A template with no ':' has no placeholder, and resolves to itself
      whatever the parameters. */
  lemma {:induction false} ResolveQueryNoPlaceholder(query: string, params: seq<Binding>)
    requires forall i :: 0 <= i < |query| ==> query[i] != ':'
    ensures ResolveQuery(query, params) == query
    decreases |params|
  {
    if params != [] {
      var n := |params| - 1;
      ResolveQueryNoPlaceholder(query, params[..n]);
      var pk := Placeholder(params[n].0);
      ReplaceAllWithoutMatch(query, pk, params[n].1);
    }
  }

  /** A key without ':' is substituted through its placeholder. */
  lemma ResolveQueryExample()
    ensures ResolveQuery("id=:id", [("id", "5")]) == "id=5"
  {
  }

  /** The prefix hazard, as the code has it: once `:id` has been substituted,
      the placeholder `:ids` is no longer in the text. */
  lemma ResolveQueryPrefixCollision()
    ensures ResolveQuery(":id,:ids", [("id", "5"), ("ids", "x")]) == "5,5s"
  {
    var q := ":id,:ids";
    var params: seq<Binding> := [("id", "5"), ("ids", "x")];
    assert params[..1] == [("id", "5")];
    assert [("id", "5")][..0] == [];
    assert ReplaceAll(q, ":id", "5") == "5,5s" by {
      ReplaceAllWithoutMatch("s", ":id", "5");
      assert ":ids"[..3] == ":id" && ":ids"[3..] == "s";
      ReplaceAllMatchHere(":ids", ":id", "5");
      assert ",:ids"[1..] == ":ids";
      ReplaceAllNoMatchHere(",:ids", ":id", "5");
      assert q[..3] == ":id" && q[3..] == ",:ids";
      ReplaceAllMatchHere(q, ":id", "5");
    }
    NoMarkerNoMatch("5,5s", ":ids");
    ReplaceAllWithoutMatch("5,5s", ":ids", "x");
  }

  /** A key bound with its ':' and the same key given to `execute` without it
      are two separate entries of the array. */
  lemma MarkedAndBareKeysStaySeparate()
    ensures MergeAll([(":id", "1")], [("id", "2")]) == [(":id", "1"), ("id", "2")]
  {
    var bound: Params := [(":id", "1")];
    var input: seq<Binding> := [("id", "2")];
    assert input[..0] == [];
    assert Put(bound, "id", "2") == [bound[0]] + Put([], "id", "2");
  }

  /** Of a ':'-marked key and the same key without ':', only the first in map
      order is substituted: the execute-time value does not reach the resolved
      text, and so not the cache key either. */
  lemma BareKeyAfterMarkedKeyIsNotSubstituted()
    ensures ResolveQuery("id=:id", [(":id", "1"), ("id", "2")]) == "id=1"
  {
    var params: seq<Binding> := [(":id", "1"), ("id", "2")];
    assert params[..1] == [(":id", "1")] && params[..1][..0] == [];
    var q := "id=:id";
    assert ReplaceAll(q, ":id", "1") == "id=1" by {
      ReplaceAllMatchHere(q[3..], ":id", "1");
      assert q[3..][3..] == [];
      ReplaceAllNoMatchHere(q[2..], ":id", "1");
      assert q[2..][1..] == q[3..];
      ReplaceAllNoMatchHere(q[1..], ":id", "1");
      assert q[1..][1..] == q[2..];
      ReplaceAllNoMatchHere(q, ":id", "1");
    }
    NoMarkerNoMatch("id=1", ":id");
    ReplaceAllWithoutMatch("id=1", ":id", "2");
  }
}
