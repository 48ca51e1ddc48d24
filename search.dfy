/**
  Case-insensitive search over items and the sorted list of distinct names,
  shared by the manager service and the variable list's view model.
 */
module Search {
  import opened Text
  import opened Model

  /** The item's name, value or comment, lower-cased, holds the (already
      lower-cased) query; an item without a comment matches on its name and
      value alone. */
  predicate Matches(v: EnvVariable, lowerQuery: string)
  {
    Contains(Lower(v.name), lowerQuery) ||
    Contains(Lower(v.value), lowerQuery) ||
    (v.comment.Some? && Contains(Lower(v.comment.value), lowerQuery))
  }

  /** `a` is `b` with some elements dropped, the rest kept in order. */
  predicate IsSubsequence<T(==)>(a: seq<T>, b: seq<T>)
    decreases |b|
  {
    if |a| == 0 then true
    else if |b| == 0 then false
    else if a[0] == b[0] then IsSubsequence(a[1..], b[1..])
    else IsSubsequence(a, b[1..])
  }

  lemma {:induction false} SubsequenceShorter<T>(a: seq<T>, b: seq<T>)
    requires IsSubsequence(a, b)
    ensures |a| <= |b|
    decreases |b|
  {
    if |a| > 0 {
      if a[0] == b[0] { SubsequenceShorter(a[1..], b[1..]); }
      else { SubsequenceShorter(a, b[1..]); }
    }
  }

  lemma {:induction false} SubsequenceOfSelf<T>(a: seq<T>)
    ensures IsSubsequence(a, a)
    decreases |a|
  {
    if |a| > 0 { SubsequenceOfSelf(a[1..]); }
  }

  /** The items that match, in their original order. */
  function Filter(vs: seq<EnvVariable>, lowerQuery: string): (r: seq<EnvVariable>)
    ensures IsSubsequence(r, vs)
    ensures forall i :: 0 <= i < |r| ==> Matches(r[i], lowerQuery)
    ensures forall i :: 0 <= i < |vs| && Matches(vs[i], lowerQuery) ==> vs[i] in r
    ensures |r| == |vs| <==> forall i :: 0 <= i < |vs| ==> Matches(vs[i], lowerQuery)
    decreases |vs|
  {
    if |vs| == 0 then []
    else
      var rest := Filter(vs[1..], lowerQuery);
      assert forall i :: 1 <= i < |vs| ==> vs[i] == vs[1..][i - 1];
      SubsequenceShorter(rest, vs[1..]);
      if Matches(vs[0], lowerQuery) then
        var r := [vs[0]] + rest;
        assert r[1..] == rest;
        r
      else
        assert |rest| > 0 ==> rest[0] != vs[0];
        rest
  }

  /** Every matching item is kept as often as it occurs, and no other item
      is kept. */
  lemma {:induction false} FilterCounts(vs: seq<EnvVariable>, lowerQuery: string)
    ensures forall x ::
              multiset(Filter(vs, lowerQuery))[x] == if Matches(x, lowerQuery) then multiset(vs)[x] else 0
    decreases |vs|
  {
    if |vs| > 0 {
      var t := vs[1..];
      FilterCounts(t, lowerQuery);
      assert vs == [vs[0]] + t;
      var rest := Filter(t, lowerQuery);
      if Matches(vs[0], lowerQuery) {
        assert Filter(vs, lowerQuery) == [vs[0]] + rest;
      } else {
        assert Filter(vs, lowerQuery) == rest;
      }
    }
  }

  /** The search the manager and the list view model run: an empty query
      keeps every item; otherwise the items whose name, value or comment
      holds the query, ignoring case. */
  function SearchItems(query: string, vs: seq<EnvVariable>): (r: seq<EnvVariable>)
    ensures query == "" ==> r == vs
    ensures IsSubsequence(r, vs)
    ensures query != "" ==> forall i :: 0 <= i < |r| ==> Matches(r[i], Lower(query))
    ensures query != "" ==> forall i :: 0 <= i < |vs| && Matches(vs[i], Lower(query)) ==> vs[i] in r
    ensures query != "" ==> forall x :: multiset(r)[x] == if Matches(x, Lower(query)) then multiset(vs)[x] else 0
    ensures |r| <= |vs|
  {
    if query == "" then
      SubsequenceOfSelf(vs);
      vs
    else
      var r := Filter(vs, Lower(query));
      SubsequenceShorter(r, vs);
      FilterCounts(vs, Lower(query));
      r
  }

  /** The search result is shorter than its source exactly when the query is
      non-empty and some item fails to match it. */
  lemma SearchDropsSomething(query: string, vs: seq<EnvVariable>)
    ensures |SearchItems(query, vs)| != |vs| <==>
      query != "" && exists i :: 0 <= i < |vs| && !Matches(vs[i], Lower(query))
  {
  }

  /** Searching again with the same query changes nothing. */
  lemma {:induction false} SearchIdempotent(query: string, vs: seq<EnvVariable>)
    ensures SearchItems(query, SearchItems(query, vs)) == SearchItems(query, vs)
  {
    if query != "" {
      FilterAllMatch(Filter(vs, Lower(query)), Lower(query));
    }
  }

  lemma {:induction false} FilterAllMatch(vs: seq<EnvVariable>, lowerQuery: string)
    requires forall i :: 0 <= i < |vs| ==> Matches(vs[i], lowerQuery)
    ensures Filter(vs, lowerQuery) == vs
    decreases |vs|
  {
    if |vs| > 0 {
      assert forall i :: 0 <= i < |vs| - 1 ==> vs[1..][i] == vs[i + 1];
      FilterAllMatch(vs[1..], lowerQuery);
    }
  }

  // ---------------------------------------------------------------------
  // Sorted distinct names

  /** Each string is smaller than every later one, in character-code order. */
  predicate StrictlyAscending(s: seq<string>)
  {
    forall i, j :: 0 <= i < j < |s| ==> LexLess(s[i], s[j])
  }

  /** A string below every element of a strictly ascending list can head it. */
  lemma {:induction false} ConsAscending(h: string, s: seq<string>)
    requires StrictlyAscending(s)
    requires forall y :: y in s ==> LexLess(h, y)
    ensures StrictlyAscending([h] + s)
  {
    var r := [h] + s;
    forall i, j | 0 <= i < j < |r|
      ensures LexLess(r[i], r[j])
    {
      assert r[j] == s[j - 1];
      if i > 0 { assert r[i] == s[i - 1]; }
    }
  }

  /** Adds `x` to a strictly ascending list unless it is already there. */
  function InsertName(x: string, s: seq<string>): (r: seq<string>)
    requires StrictlyAscending(s)
    ensures StrictlyAscending(r)
    ensures forall y :: y in r <==> y == x || y in s
    decreases |s|
  {
    if |s| == 0 then [x]
    else if x == s[0] then s
    else if LexLess(x, s[0]) then
      forall y | y in s
        ensures LexLess(x, y)
      {
        var k :| 0 <= k < |s| && s[k] == y;
        if k > 0 { LexLessTransitive(x, s[0], s[k]); }
      }
      ConsAscending(x, s);
      [x] + s
    else
      LexLessTotal(x, s[0]);
      var tail := s[1..];
      assert s == [s[0]] + tail;
      assert StrictlyAscending(tail) by {
        forall i, j | 0 <= i < j < |tail|
          ensures LexLess(tail[i], tail[j])
        {
          assert tail[i] == s[i + 1] && tail[j] == s[j + 1];
        }
      }
      var rest := InsertName(x, tail);
      forall y | y in rest
        ensures LexLess(s[0], y)
      {
        if y != x {
          var k :| 0 <= k < |tail| && tail[k] == y;
          assert s[k + 1] == y;
        }
      }
      ConsAscending(s[0], rest);
      [s[0]] + rest
  }

  /** The distinct strings of `ns`, ascending. */
  function SortedUnique(ns: seq<string>): (r: seq<string>)
    ensures StrictlyAscending(r)
    ensures forall y :: y in r <==> y in ns
    decreases |ns|
  {
    if |ns| == 0 then []
    else
      var r := InsertName(ns[|ns| - 1], SortedUnique(ns[..|ns| - 1]));
      assert ns == ns[..|ns| - 1] + [ns[|ns| - 1]];
      r
  }

  /** A strictly ascending list holds no string twice. */
  lemma StrictlyAscendingDistinct(s: seq<string>)
    requires StrictlyAscending(s)
    ensures forall i, j :: 0 <= i < |s| && 0 <= j < |s| && i != j ==> s[i] != s[j]
  {
    forall i, j | 0 <= i < |s| && 0 <= j < |s| && i != j
      ensures s[i] != s[j]
    {
      if i < j { LexLessIrreflexive(s[i]); } else { LexLessIrreflexive(s[j]); }
    }
  }

  /** The names of the items, in order. */
  function Names(vs: seq<EnvVariable>): (r: seq<string>)
    ensures |r| == |vs| && forall i :: 0 <= i < |vs| ==> r[i] == vs[i].name
  {
    seq(|vs|, i requires 0 <= i < |vs| => vs[i].name)
  }
}
