/** The tiered partial-match search (InstantDoc.Search): partial terms of
    the query, one tier of matches per term, each key in the first tier
    whose term it contains, tiers sorted by key length and laid end to end. */
module Ranking {
  import opened Text
  import opened Outcomes

  /** The partial search terms of a query of n >= 3 characters: n - 2
      lower-cased prefixes, the whole query first, its first three
      characters last. */
  function PartialTerms(query: string): (terms: seq<string>)
    requires |query| > 2
    ensures |terms| == |query| - 2
  {
    seq(|query| - 2, k requires 0 <= k < |query| - 2 => Lower(query)[..|query| - k])
  }

  /** The shape of the partial terms: their number, the first and last
      term, and every term a prefix of every earlier one. */
  lemma PartialTermsShape(query: string)
    requires |query| > 2
    ensures var terms := PartialTerms(query);
      && |terms| == |query| - 2
      && terms[0] == Lower(query)
      && terms[|terms| - 1] == Lower(query)[..3]
      && (forall k :: 0 <= k < |terms| ==> |terms[k]| == |query| - k)
      && (forall k :: 0 <= k < |terms| ==> terms[k] == Lower(query[..|query| - k]))
      && (forall a, b :: 0 <= a <= b < |terms| ==> terms[b] == terms[a][..|terms[b]|])
  {
    forall k | 0 <= k < |query| - 2 ensures PartialTerms(query)[k] == Lower(query[..|query| - k]) {
      LowerPrefix(query, |query| - k);
    }
  }

  /** The key contains the query's first three characters: the key is
      listed by the search. */
  predicate Hit(query: string, key: string): (b: bool)
    requires |query| > 2
    ensures b ==> |key| >= 3
  {
    Contains(Lower(key), Lower(query)[..3])
  }

  /** The first term, from index `from` on, that `name` contains, or
      |terms| when it contains none of them. */
  function FirstMatch(name: string, terms: seq<string>, from: nat): (t: nat)
    requires from <= |terms|
    ensures from <= t <= |terms|
    ensures t < |terms| ==> Contains(name, terms[t])
    ensures forall j :: from <= j < t ==> !Contains(name, terms[j])
    decreases |terms| - from
  {
    if from == |terms| then |terms|
    else if Contains(name, terms[from]) then from
    else FirstMatch(name, terms, from + 1)
  }

  /** The tier a key belongs to: the first term its lower-cased form
      contains (|terms| when none). */
  function TierOf(terms: seq<string>, key: string): (t: nat)
    ensures t <= |terms|
    ensures t < |terms| ==> Contains(Lower(key), terms[t])
  {
    FirstMatch(Lower(key), terms, 0)
  }

  /** A key lands in some tier exactly when it is a hit. */
  lemma {:induction false} TieredIffHit(query: string, key: string)
    requires |query| > 2
    ensures TierOf(PartialTerms(query), key) < |query| - 2 <==> Hit(query, key)
  {
    var terms, name := PartialTerms(query), Lower(key);
    PartialTermsShape(query);
    var t := TierOf(terms, key);
    if t < |terms| {
      assert terms[t][..3] == Lower(query)[..3];
      ContainsPrefix(name, terms[t], 3);
    }
    if Hit(query, key) {
      assert Contains(name, terms[|terms| - 1]);
    }
  }

  /** The keys of tier `t`, in the order they are enumerated. */
  function TierMembers(keys: seq<string>, terms: seq<string>, t: nat): (r: seq<string>)
    ensures forall x {:trigger x in r} :: x in r <==> x in keys && TierOf(terms, x) == t
    ensures forall x {:trigger multiset(r)[x]} :: multiset(r)[x] == if TierOf(terms, x) == t then multiset(keys)[x] else 0
  {
    if keys == [] then []
    else
      var init, last := keys[..|keys| - 1], keys[|keys| - 1];
      assert keys == init + [last];
      TierMembers(init, terms, t) + (if TierOf(terms, last) == t then [last] else [])
  }

  /** The first m tiers. */
  function TierSeq(keys: seq<string>, terms: seq<string>, m: nat): seq<seq<string>> {
    seq(m, t requires 0 <= t < m => TierMembers(keys, terms, t))
  }

  /** Lists laid end to end, in order. */
  function Flatten(lists: seq<seq<string>>): seq<string> {
    if lists == [] then []
    else Flatten(lists[..|lists| - 1]) + lists[|lists| - 1]
  }

  /** Flattening the first tiers collects the keys of those tiers, each as
      often as it is enumerated. */
  lemma {:induction false} TierSeqMultiset(keys: seq<string>, terms: seq<string>, m: nat)
    ensures forall x :: (multiset(Flatten(TierSeq(keys, terms, m)))[x]
      == if TierOf(terms, x) < m then multiset(keys)[x] else 0)
  {
    if m > 0 {
      TierSeqMultiset(keys, terms, m - 1);
      var tiers := TierSeq(keys, terms, m);
      assert tiers[..m - 1] == TierSeq(keys, terms, m - 1);
      var head, last := Flatten(tiers[..m - 1]), TierMembers(keys, terms, m - 1);
      assert Flatten(tiers) == head + last;
      assert multiset(Flatten(tiers)) == multiset(head) + multiset(last);
    }
  }

  /** Lists that are pairwise permutations flatten to permutations. */
  lemma {:induction false} FlattenMultiset(lists: seq<seq<string>>, others: seq<seq<string>>)
    requires |lists| == |others|
    requires forall t :: 0 <= t < |lists| ==> multiset(lists[t]) == multiset(others[t])
    ensures multiset(Flatten(lists)) == multiset(Flatten(others))
  {
    if lists != [] {
      var n := |lists| - 1;
      FlattenMultiset(lists[..n], others[..n]);
    }
  }

  /** Results are ranked: tier-major, and by length within a tier. */
  ghost predicate TierMajor(terms: seq<string>, out: seq<string>) {
    forall i, j :: 0 <= i < j < |out| ==>
      && TierOf(terms, out[i]) <= TierOf(terms, out[j])
      && (TierOf(terms, out[i]) == TierOf(terms, out[j]) ==> |out[i]| <= |out[j]|)
  }

  /** Shorter keys first. */
  predicate SortedByLength(s: seq<string>) {
    forall i, j :: 0 <= i < j < |s| ==> |s[i]| <= |s[j]|
  }

  /** Length-sorted tiers, each holding only keys of its own tier, flatten
      to a ranked list. */
  lemma {:induction false} FlattenTierMajor(terms: seq<string>, lists: seq<seq<string>>)
    requires forall t, x :: 0 <= t < |lists| && x in lists[t] ==> TierOf(terms, x) == t
    requires forall t :: 0 <= t < |lists| ==> SortedByLength(lists[t])
    ensures forall x :: x in Flatten(lists) ==> TierOf(terms, x) < |lists|
    ensures TierMajor(terms, Flatten(lists))
  {
    if lists != [] {
      var n := |lists| - 1;
      var init, last := lists[..n], lists[n];
      FlattenTierMajor(terms, init);
      var head := Flatten(init);
      var out := head + last;
      forall i, j | 0 <= i < j < |out|
        ensures TierOf(terms, out[i]) <= TierOf(terms, out[j])
        ensures TierOf(terms, out[i]) == TierOf(terms, out[j]) ==> |out[i]| <= |out[j]|
      {
        if j < |head| {
          assert out[i] == head[i] && out[j] == head[j];
        } else if i < |head| {
          assert out[i] == head[i] && out[i] in head;
          assert out[j] == last[j - |head|] && out[j] in last;
        } else {
          assert out[i] == last[i - |head|] && out[j] == last[j - |head|];
        }
      }
    }
  }

  /** No key is enumerated twice. */
  predicate Distinct(s: seq<string>) {
    forall i, j :: 0 <= i < j < |s| ==> s[i] != s[j]
  }

  /** A list without repeats holds each of its elements once. */
  lemma {:induction false} DistinctMultiset(s: seq<string>)
    requires Distinct(s)
    ensures forall x :: multiset(s)[x] == if x in s then 1 else 0
  {
    if s != [] {
      var init, last := s[..|s| - 1], s[|s| - 1];
      assert s == init + [last];
      assert Distinct(init) by {
        forall i, j | 0 <= i < j < |init| ensures init[i] != init[j] {
          assert init[i] == s[i] && init[j] == s[j];
        }
      }
      DistinctMultiset(init);
      forall k | 0 <= k < |init| ensures init[k] != last {
        assert init[k] == s[k];
      }
    }
  }

  /** The loop at the head of Search: slot (n-1)-i of the term array gets
      the lower-cased prefix of length i+1, for i from n-1 down to 2. */
  method BuildPartialTerms(query: string) returns (terms: seq<string>)
    requires |query| > 2
    ensures terms == PartialTerms(query)
  {
    var n := |query|;
    var partialSearch := new string[n - 2];
    var normSearch := Lower(query);
    var i := n - 1;
    while i >= 2
      invariant 1 <= i <= n - 1
      invariant forall k :: 0 <= k < n - 1 - i ==> partialSearch[k] == normSearch[..n - k]
    {
      partialSearch[(n - 1) - i] := normSearch[..i + 1];
      i := i - 1;
    }
    terms := partialSearch[..];
  }

  /** `foreach (string keyword in indexedResults.Keys)`: the keys of the
      index in an order the dictionary chooses. */
  method EnumerateKeys(index: set<string>) returns (keys: seq<string>)
    ensures Distinct(keys)
    ensures forall x :: x in keys <==> x in index
  {
    keys := [];
    var rest := index;
    while rest != {}
      invariant Distinct(keys)
      invariant forall x :: x in keys <==> x in index && x !in rest
      invariant rest <= index
      decreases rest
    {
      var key :| key in rest;
      keys := keys + [key];
      rest := rest - {key};
    }
  }

  /** The matching loops of Search: every key goes into the first tier whose
      term it contains, unless an earlier tier holds it already; a tier's
      list is allocated the first time a key is examined. */
  method CollectTiers(terms: seq<string>, keys: seq<string>, results: array<Option<seq<string>>>)
    requires results.Length == |terms|
    requires forall t :: 0 <= t < results.Length ==> results[t] == None
    modifies results
    ensures forall t :: 0 <= t < results.Length ==>
      results[t] == if keys == [] then None else Some(TierMembers(keys, terms, t))
  {
    for p := 0 to |keys|
      invariant forall t :: 0 <= t < results.Length ==>
        results[t] == if p == 0 then None else Some(TierMembers(keys[..p], terms, t))
    {
      var keyword := keys[p];
      ghost var seen, seen' := keys[..p], keys[..p + 1];
      assert seen'[..p] == seen && seen'[p] == keyword && keyword in seen';
      assert p == 0 ==> seen == [];
      for i := 0 to |terms|
        invariant forall t :: 0 <= t < i ==> results[t] == Some(TierMembers(seen', terms, t))
        invariant forall t :: i <= t < |terms| ==>
          results[t] == if p == 0 then None else Some(TierMembers(seen, terms, t))
      {
        if results[i] == None {
          results[i] := Some([]);
        }
        assert results[i] == Some(TierMembers(seen, terms, i));
        assert TierMembers(seen', terms, i) == if TierOf(terms, keyword) == i
          then TierMembers(seen, terms, i) + [keyword]
          else TierMembers(seen, terms, i);
        if Contains(Lower(keyword), terms[i]) {
          assert TierOf(terms, keyword) <= i;
          var isUnique := true;
          ghost var clash := 0;
          for j := 0 to i
            modifies {}
            invariant isUnique
            invariant forall t :: 0 <= t < j ==> keyword !in results[t].value
          {
            if keyword in results[j].value {
              isUnique := false;
              clash := j;
              break;
            }
          }
          if isUnique {
            forall t | 0 <= t < i ensures keyword !in TierMembers(seen', terms, t) {
              assert results[t] == Some(TierMembers(seen', terms, t));
            }
            ghost var tier := TierOf(terms, keyword);
            assert tier < i ==> keyword in TierMembers(seen', terms, tier);
            assert tier == i;
          } else {
            assert 0 <= clash < i && keyword in TierMembers(seen', terms, clash);
            assert TierOf(terms, keyword) != i;
          }
          if isUnique {
            results[i] := Some(results[i].value + [keyword]);
          }
        } else {
          assert TierOf(terms, keyword) != i;
        }
        assert results[i] == Some(TierMembers(seen', terms, i));
      }
    }
    assert keys[..|keys|] == keys;
  }

  /** List.Sort with the comparer on Length: a length-sorted permutation
      (the sort is not stable, so ties come in no promised order). */
  method SortByLength(s: seq<string>) returns (r: seq<string>)
    ensures SortedByLength(r)
    ensures multiset(r) == multiset(s)
  {
    r := [];
    for i := 0 to |s|
      invariant SortedByLength(r)
      invariant multiset(r) == multiset(s[..i])
    {
      assert s[..i + 1] == s[..i] + [s[i]];
      r := InsertByLength(r, s[i]);
    }
    assert s[..|s|] == s;
  }

  /** One step of the sort: `x` placed among length-sorted keys. */
  method InsertByLength(sorted: seq<string>, x: string) returns (r: seq<string>)
    requires SortedByLength(sorted)
    ensures SortedByLength(r)
    ensures multiset(r) == multiset(sorted) + multiset{x}
  {
    var j := 0;
    while j < |sorted| && |sorted[j]| <= |x|
      invariant 0 <= j <= |sorted|
      invariant forall k :: 0 <= k < j ==> |sorted[k]| <= |x|
    {
      j := j + 1;
    }
    assert sorted == sorted[..j] + sorted[j..];
    r := sorted[..j] + [x] + sorted[j..];
    InsertedSorted(sorted, x, j);
  }

  /** Placing `x` after the shorter-or-equal keys and before the longer
      ones keeps the keys sorted by length. */
  lemma InsertedSorted(sorted: seq<string>, x: string, j: nat)
    requires SortedByLength(sorted) && j <= |sorted|
    requires forall k :: 0 <= k < j ==> |sorted[k]| <= |x|
    requires j < |sorted| ==> |sorted[j]| > |x|
    ensures SortedByLength(sorted[..j] + [x] + sorted[j..])
  {
    var r := sorted[..j] + [x] + sorted[j..];
    forall a, b | 0 <= a < b < |r| ensures |r[a]| <= |r[b]| {
      var la := if a < j then |sorted[a]| else if a == j then |x| else |sorted[a - 1]|;
      var lb := if b < j then |sorted[b]| else if b == j then |x| else |sorted[b - 1]|;
      assert |r[a]| == la && |r[b]| == lb;
      if a < j && b > j {
        assert |sorted[a]| <= |sorted[b - 1]|;
      } else if a == j && b > j {
        assert |sorted[j]| <= |sorted[b - 1]|;
      }
    }
  }

  /** The lists that were allocated, in order, skipping the null ones. */
  function Allocated(lists: seq<Option<seq<string>>>): seq<seq<string>> {
    if lists == [] then []
    else
      var last := lists[|lists| - 1];
      Allocated(lists[..|lists| - 1]) + (if last.Some? then [last.value] else [])
  }

  /** The sort loop of Search: sorts every tier list by length in place,
      and throws on the first list that was never allocated. */
  method SortTiers(results: array<Option<seq<string>>>) returns (r: Outcome)
    modifies results
    ensures r.Pass? <==> forall t :: 0 <= t < results.Length ==> old(results[t]).Some?
    ensures r.Fail? ==> r.error == NullReference
    ensures r.Pass? ==> forall t :: 0 <= t < results.Length ==>
      && results[t].Some?
      && SortedByLength(results[t].value)
      && multiset(results[t].value) == multiset(old(results[t]).value)
  {
    for i := 0 to results.Length
      invariant forall t :: i <= t < results.Length ==> results[t] == old(results[t])
      invariant forall t :: 0 <= t < i ==> results[t].Some? && old(results[t]).Some?
      invariant forall t :: 0 <= t < i ==>
        SortedByLength(results[t].value) && multiset(results[t].value) == multiset(old(results[t]).value)
    {
      if results[i] == None {
        return Fail(NullReference);
      }
      var sorted := SortByLength(results[i].value);
      results[i] := Some(sorted);
    }
    return Pass;
  }

  /** The aggregation loop of Search: the allocated tier lists appended in
      tier order. */
  method Aggregate(results: array<Option<seq<string>>>) returns (searchResults: seq<string>)
    ensures searchResults == Flatten(Allocated(results[..]))
  {
    searchResults := [];
    for i := 0 to results.Length
      invariant searchResults == Flatten(Allocated(results[..i]))
    {
      assert results[..i + 1][..i] == results[..i];
      ghost var before := Allocated(results[..i]);
      if results[i] != None {
        assert Allocated(results[..i + 1]) == before + [results[i].value];
        assert (before + [results[i].value])[..|before|] == before;
        assert Flatten(before + [results[i].value]) == Flatten(before) + results[i].value;
        searchResults := searchResults + results[i].value;
      } else {
        assert Allocated(results[..i + 1]) == before;
      }
    }
    assert results[..results.Length] == results[..];
  }

  /** Search on the keys of the index: fails on an empty index, where no
      tier list was ever allocated and the sort meets a null list;
      otherwise lists every hit exactly once, ranked tier-major and by
      length within a tier. */
  method RankedSearch(query: string, keys: seq<string>) returns (r: Result<seq<string>>)
    requires |query| > 2
    requires Distinct(keys)
    ensures r.Failure? <==> keys == []
    ensures r.Failure? ==> r.error == NullReference
    ensures r.Success? ==> forall x :: multiset(r.value)[x] == if x in keys && Hit(query, x) then 1 else 0
    ensures r.Success? ==> TierMajor(PartialTerms(query), r.value)
  {
    var terms := BuildPartialTerms(query);
    var results := new Option<seq<string>>[|terms|](_ => None);
    CollectTiers(terms, keys, results);
    var sorting := SortTiers(results);
    if sorting.Fail? {
      return Failure(sorting.error);
    }
    var searchResults := Aggregate(results);
    ghost var tiers := AllAllocated(results[..]);
    RankingHolds(query, keys, terms, tiers);
    r := Success(searchResults);
  }

  /** When every list is allocated, the allocated lists are all of them. */
  lemma {:induction false} AllAllocated(lists: seq<Option<seq<string>>>) returns (values: seq<seq<string>>)
    requires forall t :: 0 <= t < |lists| ==> lists[t].Some?
    ensures Allocated(lists) == values && |values| == |lists|
    ensures forall t :: 0 <= t < |lists| ==> values[t] == lists[t].value
  {
    if lists == [] {
      values := [];
    } else {
      var init := AllAllocated(lists[..|lists| - 1]);
      values := init + [lists[|lists| - 1].value];
    }
  }

  /** The ranking promised by RankedSearch, from the sorted tiers. */
  lemma RankingHolds(query: string, keys: seq<string>, terms: seq<string>, tiers: seq<seq<string>>)
    requires |query| > 2 && terms == PartialTerms(query) && Distinct(keys)
    requires |tiers| == |terms|
    requires forall t :: 0 <= t < |tiers| ==>
      SortedByLength(tiers[t]) && multiset(tiers[t]) == multiset(TierMembers(keys, terms, t))
    ensures forall x :: multiset(Flatten(tiers))[x] == if x in keys && Hit(query, x) then 1 else 0
    ensures TierMajor(terms, Flatten(tiers))
  {
    forall t, x | 0 <= t < |tiers| && x in tiers[t] ensures TierOf(terms, x) == t {
      assert x in multiset(TierMembers(keys, terms, t));
    }
    FlattenTierMajor(terms, tiers);
    FlattenMultiset(tiers, TierSeq(keys, terms, |terms|));
    TierSeqMultiset(keys, terms, |terms|);
    DistinctMultiset(keys);
    forall x ensures multiset(Flatten(tiers))[x] == if x in keys && Hit(query, x) then 1 else 0 {
      TieredIffHit(query, x);
    }
  }
}
