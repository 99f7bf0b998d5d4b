/**
 * The two-tier component ranking shared by the sidebar search field
 * (limit 12) and the spotlight dialog (limit 10): components whose display
 * name or id starts with the query come first, then those that only contain
 * it, each tier in catalog order, cut off at the limit.
 */
module Ranking {
  import opened Text
  import opened Catalog

  /** The query as both surfaces match it: trimmed, then lower-cased. */
  function Normalize(text: string): string {
    Lower(Trim(text))
  }

  /** First tier: the lower-cased display name or id starts with the query. */
  predicate StartsMatch(n: LibraryNode, q: string) {
    StartsWith(Lower(n.translatedName), q) || StartsWith(Lower(n.name), q)
  }

  /** Second tier: name or id contains the query, and neither starts with it. */
  predicate ContainsOnlyMatch(n: LibraryNode, q: string) {
    (Contains(Lower(n.translatedName), q) || Contains(Lower(n.name), q)) && !StartsMatch(n, q)
  }

  /** The lower-cased display name or id contains the query somewhere. */
  predicate Matches(n: LibraryNode, q: string) {
    Contains(Lower(n.translatedName), q) || Contains(Lower(n.name), q)
  }

  predicate InTier(n: LibraryNode, q: string, first: bool) {
    if first then StartsMatch(n, q) else ContainsOnlyMatch(n, q)
  }

  /** The entries of one tier, in catalog order. */
  function Tier(entries: seq<LibraryNode>, q: string, first: bool): seq<LibraryNode>
  {
    if entries == [] then []
    else (if InTier(entries[0], q, first) then [entries[0]] else []) + Tier(entries[1..], q, first)
  }

  function Take<T>(s: seq<T>, n: nat): seq<T> {
    if |s| <= n then s else s[..n]
  }

  /** The ranked, capped result list. */
  function Ranked(entries: seq<LibraryNode>, q: string, limit: nat): seq<LibraryNode> {
    Take(Tier(entries, q, true) + Tier(entries, q, false), limit)
  }

  // ---- facts about tiers ----

  lemma {:induction false} TierAppend(a: seq<LibraryNode>, b: seq<LibraryNode>, q: string, first: bool)
    ensures Tier(a + b, q, first) == Tier(a, q, first) + Tier(b, q, first)
  {
    if a == [] {
      assert a + b == b;
    } else {
      var h := if InTier(a[0], q, first) then [a[0]] else [];
      assert (a + b)[0] == a[0];
      assert (a + b)[1..] == a[1..] + b;
      TierAppend(a[1..], b, q, first);
      calc {
        Tier(a + b, q, first);
        h + Tier(a[1..] + b, q, first);
        h + (Tier(a[1..], q, first) + Tier(b, q, first));
        (h + Tier(a[1..], q, first)) + Tier(b, q, first);
      }
    }
  }

  lemma TierStep(entries: seq<LibraryNode>, i: nat, q: string, first: bool)
    requires i < |entries|
    ensures Tier(entries[..i + 1], q, first)
         == Tier(entries[..i], q, first) + (if InTier(entries[i], q, first) then [entries[i]] else [])
  {
    assert entries[..i + 1] == entries[..i] + [entries[i]];
    TierAppend(entries[..i], [entries[i]], q, first);
  }

  lemma TierSplit(entries: seq<LibraryNode>, i: nat, q: string, first: bool)
    requires i <= |entries|
    ensures Tier(entries, q, first) == Tier(entries[..i], q, first) + Tier(entries[i..], q, first)
  {
    assert entries == entries[..i] + entries[i..];
    TierAppend(entries[..i], entries[i..], q, first);
  }

  /** A tier holds exactly the catalog entries that belong to it. */
  lemma {:induction false} TierMembers(entries: seq<LibraryNode>, q: string, first: bool, n: LibraryNode)
    ensures n in Tier(entries, q, first) <==> n in entries && InTier(n, q, first)
  {
    if entries != [] {
      TierMembers(entries[1..], q, first, n);
      assert entries == [entries[0]] + entries[1..];
    }
  }

  /** `a` is `b` with some elements left out (order kept). */
  ghost predicate IsSubsequence<T>(a: seq<T>, b: seq<T>)
    decreases |b|
  {
    a == [] || (b != [] && ((a[0] == b[0] && IsSubsequence(a[1..], b[1..])) || IsSubsequence(a, b[1..])))
  }

  /** A tier keeps catalog order: it is a subsequence of the catalog. */
  lemma {:induction false} TierIsSubsequence(entries: seq<LibraryNode>, q: string, first: bool)
    ensures IsSubsequence(Tier(entries, q, first), entries)
  {
    if entries != [] {
      TierIsSubsequence(entries[1..], q, first);
      var rest := Tier(entries[1..], q, first);
      if InTier(entries[0], q, first) {
        assert ([entries[0]] + rest)[1..] == rest;
      } else {
        assert [] + rest == rest;
      }
    }
  }

  predicate Distinct<T(==)>(s: seq<T>) {
    forall i, j :: 0 <= i < j < |s| ==> s[i] != s[j]
  }

  lemma {:induction false} TierDistinct(entries: seq<LibraryNode>, q: string, first: bool)
    requires Distinct(entries)
    ensures Distinct(Tier(entries, q, first))
  {
    if entries != [] {
      var rest := entries[1..];
      assert Distinct(rest) by {
        forall i, j | 0 <= i < j < |rest| ensures rest[i] != rest[j] {
          assert rest[i] == entries[i + 1] && rest[j] == entries[j + 1];
        }
      }
      TierDistinct(rest, q, first);
      if InTier(entries[0], q, first) {
        TierMembers(rest, q, first, entries[0]);
        assert entries[0] !in rest by {
          forall k | 0 <= k < |rest| ensures rest[k] != entries[0] {
            assert rest[k] == entries[k + 1];
          }
        }
      }
    }
  }

  // ---- properties of the ranking ----

  /** Never more than the limit. */
  lemma RankedBound(entries: seq<LibraryNode>, q: string, limit: nat)
    ensures |Ranked(entries, q, limit)| <= limit
  {
  }

  /** Every result has the query in its lower-cased display name or id. */
  lemma RankedMatch(entries: seq<LibraryNode>, q: string, limit: nat, n: LibraryNode)
    requires n in Ranked(entries, q, limit)
    ensures n in entries && Matches(n, q)
  {
    var t1, t2 := Tier(entries, q, true), Tier(entries, q, false);
    assert n in t1 + t2;
    TierMembers(entries, q, true, n);
    TierMembers(entries, q, false, n);
    if n in t1 {
      if StartsWith(Lower(n.translatedName), q) {
        StartsWithContains(Lower(n.translatedName), q);
      } else {
        StartsWithContains(Lower(n.name), q);
      }
    }
  }

  /** No contains-only result is ever ranked above a starts-with result. */
  lemma RankedTierOrder(entries: seq<LibraryNode>, q: string, limit: nat, i: nat, j: nat)
    requires i < j < |Ranked(entries, q, limit)|
    requires StartsMatch(Ranked(entries, q, limit)[j], q)
    ensures StartsMatch(Ranked(entries, q, limit)[i], q)
  {
    var t1, t2 := Tier(entries, q, true), Tier(entries, q, false);
    var r := Ranked(entries, q, limit);
    assert r[i] == (t1 + t2)[i] && r[j] == (t1 + t2)[j];
    if j >= |t1| {
      assert r[j] in t2;
      TierMembers(entries, q, false, r[j]);
      assert false;
    }
    assert r[i] in t1;
    TierMembers(entries, q, true, r[i]);
  }

  /** Over a catalog without repeats, no result appears twice. */
  lemma RankedDistinct(entries: seq<LibraryNode>, q: string, limit: nat)
    requires Distinct(entries)
    ensures Distinct(Ranked(entries, q, limit))
  {
    var t1, t2 := Tier(entries, q, true), Tier(entries, q, false);
    TierDistinct(entries, q, true);
    TierDistinct(entries, q, false);
    var s := t1 + t2;
    forall i, j | 0 <= i < j < |s| ensures s[i] != s[j] {
      if i < |t1| && j >= |t1| {
        assert s[i] in t1 && s[j] in t2;
        TierMembers(entries, q, true, s[i]);
        TierMembers(entries, q, false, s[j]);
      } else if j < |t1| {
        assert s[i] == t1[i] && s[j] == t1[j];
      } else {
        assert s[i] == t2[i - |t1|] && s[j] == t2[j - |t1|];
      }
    }
    if |s| > limit {
      var r := s[..limit];
      assert forall i, j :: 0 <= i < j < |r| ==> r[i] == s[i] && r[j] == s[j];
    }
  }

  /** The results are the two tiers in catalog order, the first one exhausted before the second contributes. */
  lemma RankedOrder(entries: seq<LibraryNode>, q: string, limit: nat)
    ensures var r := Ranked(entries, q, limit);
      exists k :: 0 <= k <= |r| && r[..k] == Take(Tier(entries, q, true), limit) && r[k..] == Take(Tier(entries, q, false), limit - k)
    ensures IsSubsequence(Tier(entries, q, true), entries) && IsSubsequence(Tier(entries, q, false), entries)
  {
    TierIsSubsequence(entries, q, true);
    TierIsSubsequence(entries, q, false);
    var t1, t2 := Tier(entries, q, true), Tier(entries, q, false);
    var r := Ranked(entries, q, limit);
    var k := if |t1| <= limit then |t1| else limit;
    assert r[..k] == Take(t1, limit);
    assert r[k..] == Take(t2, limit - k);
  }

  /**
   * Completeness: a list shorter than the limit holds every matching entry,
   * and once a contains-only entry is listed every starts-with entry is too.
   */
  lemma RankedComplete(entries: seq<LibraryNode>, q: string, limit: nat, n: LibraryNode)
    requires n in entries
    ensures |Ranked(entries, q, limit)| < limit && Matches(n, q) ==> n in Ranked(entries, q, limit)
    ensures StartsMatch(n, q) && (exists m :: m in Ranked(entries, q, limit) && ContainsOnlyMatch(m, q))
            ==> n in Ranked(entries, q, limit)
  {
    var t1, t2 := Tier(entries, q, true), Tier(entries, q, false);
    var r := Ranked(entries, q, limit);
    TierMembers(entries, q, true, n);
    TierMembers(entries, q, false, n);
    if |r| < limit && Matches(n, q) {
      assert r == t1 + t2;
      assert n in t1 || n in t2;
    }
    if StartsMatch(n, q) && (exists m :: m in r && ContainsOnlyMatch(m, q)) {
      var m :| m in r && ContainsOnlyMatch(m, q);
      TierMembers(entries, q, true, m);
      var j :| 0 <= j < |r| && r[j] == m;
      assert forall k :: 0 <= k < |r| && k < |t1| ==> r[k] == t1[k];
      assert m !in t1;
      assert r[..|t1|] == t1;
      assert n in t1;
    }
  }

  /** With an empty query every entry is a first-tier match: the capped catalog. */
  lemma {:induction false} RankedEmptyQuery(entries: seq<LibraryNode>, limit: nat)
    ensures Ranked(entries, "", limit) == Take(entries, limit)
  {
    AllStartEmpty(entries);
    NoneContainOnlyEmpty(entries);
    assert Tier(entries, "", true) + [] == entries;
  }

  lemma {:induction false} AllStartEmpty(entries: seq<LibraryNode>)
    ensures Tier(entries, "", true) == entries
  {
    if entries != [] {
      assert StartsWith(Lower(entries[0].translatedName), "");
      AllStartEmpty(entries[1..]);
      assert [entries[0]] + entries[1..] == entries;
    }
  }

  lemma {:induction false} NoneContainOnlyEmpty(entries: seq<LibraryNode>)
    ensures Tier(entries, "", false) == []
  {
    if entries != [] {
      assert StartsWith(Lower(entries[0].translatedName), "");
      NoneContainOnlyEmpty(entries[1..]);
    }
  }

  // ---- the loops of onTextChanged / updateResults / populateAll ----

  lemma TakeOfPrefix<T>(a: seq<T>, b: seq<T>, limit: nat)
    requires |a| == limit
    ensures Take(a + b, limit) == a
  {
    assert (a + b)[..limit] == a;
  }

  /**
   * The two passes over the catalog with a shared counter that stops both
   * at `limit`.
   */
  method Rank(entries: seq<LibraryNode>, q: string, limit: nat) returns (results: seq<LibraryNode>)
    ensures results == Ranked(entries, q, limit)
  {
    results := [];
    var count := 0;
    var i := 0;
    // first pass: names or ids that start with the query
    while i < |entries|
      invariant 0 <= i <= |entries|
      invariant count == |results| <= limit
      invariant results == Tier(entries[..i], q, true)
    {
      if count >= limit {
        break;
      }
      var name := Lower(entries[i].translatedName);
      var id := Lower(entries[i].name);
      TierStep(entries, i, q, true);
      if StartsWith(name, q) || StartsWith(id, q) {
        results := results + [entries[i]];
        count := count + 1;
      }
      i := i + 1;
    }
    FirstPassDone(entries, q, limit, i, results);
    ghost var first := results;
    // second pass: names or ids that contain the query without starting with it
    i := 0;
    while i < |entries|
      invariant 0 <= i <= |entries|
      invariant count == |results| <= limit
      invariant results == first + Tier(entries[..i], q, false)
    {
      if count >= limit {
        break;
      }
      var name := Lower(entries[i].translatedName);
      var id := Lower(entries[i].name);
      TierStep(entries, i, q, false);
      if (Contains(name, q) || Contains(id, q)) && !StartsWith(name, q) && !StartsWith(id, q) {
        results := results + [entries[i]];
        count := count + 1;
      }
      i := i + 1;
    }
    if |first| < limit {
      SecondPassDone(entries, q, limit, i, first, results);
    } else {
      assert Tier(entries[..0], q, false) == [];
    }
  }

  /** After the first pass: the limit was reached, and that is the whole answer, or the first tier is complete. */
  lemma FirstPassDone(entries: seq<LibraryNode>, q: string, limit: nat, i: nat, results: seq<LibraryNode>)
    requires i <= |entries| && |results| <= limit
    requires results == Tier(entries[..i], q, true)
    requires |results| < limit ==> i == |entries|
    ensures |results| == limit ==> Ranked(entries, q, limit) == results
    ensures |results| < limit ==> results == Tier(entries, q, true)
  {
    TierSplit(entries, i, q, true);
    var rest1, t2 := Tier(entries[i..], q, true), Tier(entries, q, false);
    if |results| == limit {
      assert results + rest1 + t2 == results + (rest1 + t2);
      TakeOfPrefix(results, rest1 + t2, limit);
    } else {
      assert entries[..i] == entries;
    }
  }

  /** After the second pass of a search whose first tier fell short of the limit, the answer is complete. */
  lemma SecondPassDone(entries: seq<LibraryNode>, q: string, limit: nat, i: nat, first: seq<LibraryNode>, results: seq<LibraryNode>)
    requires i <= |entries| && |results| <= limit
    requires first == Tier(entries, q, true)
    requires results == first + Tier(entries[..i], q, false)
    requires |results| < limit ==> i == |entries|
    ensures results == Ranked(entries, q, limit)
  {
    TierSplit(entries, i, q, false);
    var rest2 := Tier(entries[i..], q, false);
    assert first + Tier(entries, q, false) == results + rest2;
    if |results| == limit {
      TakeOfPrefix(results, rest2, limit);
    } else {
      assert entries[..i] == entries;
    }
  }

  /** `populateAll`: the first `limit` catalog entries. */
  method FirstEntries(entries: seq<LibraryNode>, limit: nat) returns (results: seq<LibraryNode>)
    ensures results == Take(entries, limit)
    ensures results == Ranked(entries, "", limit)
  {
    results := [];
    var count := 0;
    var i := 0;
    while i < |entries|
      invariant 0 <= i <= |entries|
      invariant count == i == |results| <= limit
      invariant results == entries[..i]
    {
      if count >= limit {
        break;
      }
      results := results + [entries[i]];
      count := count + 1;
      i := i + 1;
    }
    RankedEmptyQuery(entries, limit);
  }
}
