/** PHP's `str_replace` for one search string, and the explode/implode pair that
    characterises it independently. */
module Text {

  /** `pat` occurs in `s` at index `i`. */
  predicate OccursAt(s: string, pat: string, i: nat)
  {
    i + |pat| <= |s| && s[i..i + |pat|] == pat
  }

  /** `pat` occurs somewhere in `s`. */
  ghost predicate Contains(s: string, pat: string)
  {
    exists i: nat :: OccursAt(s, pat, i)
  }

  /** `str_replace(pat, rep, s)`: scans `s` from the left and replaces every
      non-overlapping occurrence of `pat` by `rep`; the inserted text is not
      scanned again. An empty search string leaves `s` unchanged. */
  function ReplaceAll(s: string, pat: string, rep: string): (r: string)
    ensures |rep| >= |pat| ==> |r| >= |s|
    ensures |rep| <= |pat| ==> |r| <= |s|
    decreases |s|
  {
    if pat == [] || |s| < |pat| then s
    else if s[..|pat|] == pat then rep + ReplaceAll(s[|pat|..], pat, rep)
    else [s[0]] + ReplaceAll(s[1..], pat, rep)
  }

  /** `explode(pat, s)`: the pieces of `s` between the occurrences of `pat`
      found by the same left-to-right scan. */
  function Split(s: string, pat: string): (pieces: seq<string>)
    requires pat != []
    ensures |pieces| > 0
    decreases |s|
  {
    if |s| < |pat| then [s]
    else if s[..|pat|] == pat then [[]] + Split(s[|pat|..], pat)
    else
      var rest := Split(s[1..], pat);
      [[s[0]] + rest[0]] + rest[1..]
  }

  /** `implode(sep, pieces)`. */
  function Join(pieces: seq<string>, sep: string): (joined: string)
    requires |pieces| > 0
  {
    if |pieces| == 1 then pieces[0] else pieces[0] + sep + Join(pieces[1..], sep)
  }

  lemma JoinCons(piece: string, rest: seq<string>, sep: string)
    requires |rest| > 0
    ensures Join([piece] + rest, sep) == piece + sep + Join(rest, sep)
  {
    assert ([piece] + rest)[1..] == rest;
  }

  lemma JoinExtendFirst(c: char, pieces: seq<string>, sep: string)
    requires |pieces| > 0
    ensures Join([[c] + pieces[0]] + pieces[1..], sep) == [c] + Join(pieces, sep)
  {
    var p := [[c] + pieces[0]] + pieces[1..];
    if |pieces| > 1 {
      assert p[1..] == pieces[1..];
    }
  }

  /** Removing the first character keeps every occurrence except one at 0. */
  lemma ContainsTail(s: string, pat: string)
    requires pat != [] && |s| > 0
    ensures Contains(s, pat) <==> OccursAt(s, pat, 0) || Contains(s[1..], pat)
  {
    if Contains(s, pat) && !OccursAt(s, pat, 0) {
      var i: nat :| OccursAt(s, pat, i);
      assert i > 0;
      assert s[1..][i - 1..i - 1 + |pat|] == s[i..i + |pat|];
      assert OccursAt(s[1..], pat, i - 1);
    }
    if Contains(s[1..], pat) {
      var i: nat :| OccursAt(s[1..], pat, i);
      assert s[i + 1..i + 1 + |pat|] == s[1..][i..i + |pat|];
      assert OccursAt(s, pat, i + 1);
    }
  }

  /** The first piece of the split is a prefix of the string. */
  lemma {:induction false} SplitFirstIsPrefix(s: string, pat: string)
    requires pat != []
    ensures Split(s, pat)[0] <= s
    decreases |s|
  {
    if |s| < |pat| {
    } else if s[..|pat|] == pat {
    } else {
      SplitFirstIsPrefix(s[1..], pat);
    }
  }

  /** If a prefix of `s` starts with `pat`, so does `s`. */
  lemma PrefixOccursAtZero(t: string, s: string, pat: string)
    requires t <= s && OccursAt(t, pat, 0)
    ensures OccursAt(s, pat, 0)
  {
    assert s[..|pat|] == t[..|pat|];
  }

  /** No piece of the split contains the search string. */
  lemma {:induction false} SplitPiecesAreFree(s: string, pat: string)
    requires pat != []
    ensures forall j :: 0 <= j < |Split(s, pat)| ==> !Contains(Split(s, pat)[j], pat)
    decreases |s|
  {
    var pieces := Split(s, pat);
    if |s| < |pat| {
    } else if s[..|pat|] == pat {
      SplitPiecesAreFree(s[|pat|..], pat);
      var rest := Split(s[|pat|..], pat);
      assert pieces == [[]] + rest;
      forall j | 0 <= j < |pieces| ensures !Contains(pieces[j], pat) {
        if j > 0 {
          assert pieces[j] == rest[j - 1];
        }
      }
    } else {
      SplitPiecesAreFree(s[1..], pat);
      SplitFirstIsPrefix(s[1..], pat);
      var rest := Split(s[1..], pat);
      var first := [s[0]] + rest[0];
      assert pieces == [first] + rest[1..];
      assert first <= s;
      forall j | 0 <= j < |pieces| ensures !Contains(pieces[j], pat) {
        if j == 0 {
          ContainsTail(first, pat);
          assert first[1..] == rest[0];
          if OccursAt(first, pat, 0) {
            PrefixOccursAtZero(first, s, pat);
            assert false;
          }
        } else {
          assert pieces[j] == rest[j];
        }
      }
    }
  }

  /** Joining the pieces with the search string gives back the original. */
  lemma {:induction false} SplitJoinRoundTrip(s: string, pat: string)
    requires pat != []
    ensures Join(Split(s, pat), pat) == s
    decreases |s|
  {
    if |s| < |pat| {
    } else if s[..|pat|] == pat {
      var t := s[|pat|..];
      var rest := Split(t, pat);
      assert Split(s, pat) == [[]] + rest;
      SplitJoinRoundTrip(t, pat);
      JoinCons([], rest, pat);
      assert s == pat + t;
    } else {
      var t := s[1..];
      var rest := Split(t, pat);
      assert Split(s, pat) == [[s[0]] + rest[0]] + rest[1..];
      SplitJoinRoundTrip(t, pat);
      JoinExtendFirst(s[0], rest, pat);
      assert s == [s[0]] + t;
    }
  }

  /** `explode` cuts at the leftmost occurrence: with more than one piece
      the search string occurs right after the first piece and at no
      position inside it; a single piece means it does not occur at all. */
  lemma {:induction false} SplitCutsAtLeftmostOccurrence(s: string, pat: string)
    requires pat != []
    ensures |Split(s, pat)| > 1 ==>
      OccursAt(s, pat, |Split(s, pat)[0]|) &&
      forall i: nat :: i < |Split(s, pat)[0]| ==> !OccursAt(s, pat, i)
    ensures |Split(s, pat)| == 1 ==> !Contains(s, pat)
    decreases |s|
  {
    var pieces := Split(s, pat);
    if |pieces| == 1 {
      SplitPiecesAreFree(s, pat);
      SplitJoinRoundTrip(s, pat);
      assert Join(pieces, pat) == pieces[0];
    }
    if |s| < |pat| {
    } else if s[..|pat|] == pat {
      assert OccursAt(s, pat, 0);
    } else {
      SplitCutsAtLeftmostOccurrence(s[1..], pat);
      var rest := Split(s[1..], pat);
      assert pieces == [[s[0]] + rest[0]] + rest[1..];
      if |pieces| > 1 {
        var m := |rest[0]|;
        assert OccursAt(s[1..], pat, m);
        assert s[m + 1..m + 1 + |pat|] == s[1..][m..m + |pat|];
        forall i: nat | i < m + 1 ensures !OccursAt(s, pat, i) {
          if i > 0 && i + |pat| <= |s| {
            assert !OccursAt(s[1..], pat, i - 1);
            assert s[i..i + |pat|] == s[1..][i - 1..i - 1 + |pat|];
          }
        }
      }
    }
  }

  /** `str_replace` is `implode(rep, explode(pat, s))`: every occurrence the
      split finds, and nothing else, becomes `rep`. */
  lemma {:induction false} ReplaceAllIsJoinOfSplit(s: string, pat: string, rep: string)
    requires pat != []
    ensures ReplaceAll(s, pat, rep) == Join(Split(s, pat), rep)
    decreases |s|
  {
    if |s| < |pat| {
    } else if s[..|pat|] == pat {
      ReplaceAllIsJoinOfSplit(s[|pat|..], pat, rep);
      JoinCons([], Split(s[|pat|..], pat), rep);
    } else {
      ReplaceAllIsJoinOfSplit(s[1..], pat, rep);
      JoinExtendFirst(s[0], Split(s[1..], pat), rep);
    }
  }

  /** A string without the search string is left as it is. */
  lemma {:induction false} ReplaceAllWithoutMatch(s: string, pat: string, rep: string)
    requires !Contains(s, pat)
    ensures ReplaceAll(s, pat, rep) == s
    decreases |s|
  {
    if pat == [] || |s| < |pat| {
    } else {
      ContainsTail(s, pat);
      assert !OccursAt(s, pat, 0);
      ReplaceAllWithoutMatch(s[1..], pat, rep);
      assert s == [s[0]] + s[1..];
    }
  }

  /** Replacing a string by itself changes nothing. */
  lemma {:induction false} ReplaceAllBySelf(s: string, pat: string)
    ensures ReplaceAll(s, pat, pat) == s
  {
    if pat != [] {
      ReplaceAllIsJoinOfSplit(s, pat, pat);
      SplitJoinRoundTrip(s, pat);
    }
  }

  /** A string in which the first character of `pat` never appears does not
      contain `pat`. */
  lemma NoMarkerNoMatch(s: string, pat: string)
    requires pat != [] && forall i :: 0 <= i < |s| ==> s[i] != pat[0]
    ensures !Contains(s, pat)
  {
    assert forall i: nat :: OccursAt(s, pat, i) ==> s[i..i + |pat|][0] == s[i];
  }

  lemma ReplaceAllMatchHere(s: string, pat: string, rep: string)
    requires pat != [] && OccursAt(s, pat, 0)
    ensures ReplaceAll(s, pat, rep) == rep + ReplaceAll(s[|pat|..], pat, rep)
  {
  }

  lemma ReplaceAllNoMatchHere(s: string, pat: string, rep: string)
    requires pat != [] && |s| > 0 && s[0] != pat[0]
    ensures ReplaceAll(s, pat, rep) == [s[0]] + ReplaceAll(s[1..], pat, rep)
  {
    if |s| >= |pat| {
      assert s[..|pat|][0] != pat[0];
    }
  }
}
