/** The state the InstantDoc editor window keeps for indexing, searching and
    paging, and the three operations that update it: one tick of IndexDoc,
    Search, and the PageIndex setter. */
module Window {
  import opened Outcomes
  import opened Text
  import opened Indexing
  import opened Ranking
  import opened Paging

  class InstantDoc {
    /** false while indexedResults is still null (before the first tick) */
    var indexStarted: bool
    /** identifier -> path of every page indexed so far */
    var indexedResults: map<string, string>
    /** the filtered file listing being indexed */
    var searchPaths: seq<string>
    /** the number of paths of searchPaths already indexed */
    var searchIndex: int
    /** the ranked results of the last search */
    var searchResults: seq<string>
    /** the results on the current page */
    var selectedResults: seq<string>
    /** the current page (_pageIndex) */
    var pageIndex: int
    /** the query of the last search */
    var lastSearch: string

    /** Once started, the index holds exactly the entries of the paths
        before the cursor, one per path. */
    ghost predicate Valid()
      reads this
    {
      indexStarted ==>
        && 0 <= searchIndex <= |searchPaths|
        && indexedResults == IndexOf(searchPaths[..searchIndex])
        && |indexedResults| == searchIndex
    }

    /** A window that has not indexed or searched anything yet. */
    constructor ()
      ensures Valid() && !indexStarted
      ensures searchResults == [] && selectedResults == [] && pageIndex == 0 && lastSearch == []
    {
      indexStarted := false;
      indexedResults := map[];
      searchPaths := [];
      searchIndex := 0;
      searchResults := [];
      selectedResults := [];
      pageIndex := 0;
      lastSearch := [];
    }

    /** One tick of the indexer. The first tick takes the directory listing
        `files` and drops the search page; every tick then adds the entries
        of at most BatchSize further paths. Dictionary.Add throws on an
        identifier already present: the tick stops at that path with
        DuplicateKey. On success the result says whether indexing is done
        (the tick unregisters itself). */
    method IndexDoc(files: seq<string>) returns (r: Result<bool>)
      requires Valid()
      modifies this`indexStarted, this`indexedResults, this`searchPaths, this`searchIndex
      ensures Valid() && indexStarted
      ensures searchPaths == if old(indexStarted) then old(searchPaths) else WithoutIgnored(files)
      ensures var start := if old(indexStarted) then old(searchIndex) else 0;
        var end := BatchEnd(start, |searchPaths|);
        && start <= searchIndex <= end
        && (r.Success? <==> DistinctIds(searchPaths[..end]))
        && (r.Success? ==> searchIndex == end && r.value == (searchIndex == |searchPaths|))
        && (r.Failure? ==>
              && searchIndex < end
              && r.error == DuplicateKey(Identifier(searchPaths[searchIndex]))
              && Identifier(searchPaths[searchIndex]) in indexedResults)
      ensures DistinctIds(searchPaths) ==> r.Success?
      ensures old(indexStarted) ==> forall key :: key in old(indexedResults) ==>
        key in indexedResults && indexedResults[key] == old(indexedResults)[key]
      ensures old(indexStarted) && old(searchIndex) == |old(searchPaths)| ==>
        r == Success(true) && indexedResults == old(indexedResults) && searchIndex == old(searchIndex)
    {
      if !indexStarted {
        indexedResults := map[];
        searchPaths := WithoutIgnored(files);
        searchIndex := 0;
        indexStarted := true;
      }
      r := AddBatch();
    }

    /** The batch of IndexDoc once the listing is taken: the entries of at
        most BatchSize further paths, stopping early at the end of the
        listing or at an identifier already present. */
    method AddBatch() returns (r: Result<bool>)
      requires Valid() && indexStarted
      modifies this`indexedResults, this`searchIndex
      ensures Valid()
      ensures old(searchIndex) <= searchIndex <= BatchEnd(old(searchIndex), |searchPaths|)
      ensures r.Success? <==> DistinctIds(searchPaths[..BatchEnd(old(searchIndex), |searchPaths|)])
      ensures r.Success? ==> searchIndex == BatchEnd(old(searchIndex), |searchPaths|)
      ensures r.Success? ==> r.value == (searchIndex == |searchPaths|)
      ensures r.Failure? ==> searchIndex < BatchEnd(old(searchIndex), |searchPaths|)
      ensures r.Failure? ==> r.error == DuplicateKey(Identifier(searchPaths[searchIndex]))
      ensures r.Failure? ==> Identifier(searchPaths[searchIndex]) in indexedResults
      ensures DistinctIds(searchPaths) ==> r.Success?
      ensures forall key :: key in old(indexedResults) ==>
        key in indexedResults && indexedResults[key] == old(indexedResults)[key]
      ensures old(searchIndex) == |searchPaths| ==>
        r == Success(true) && indexedResults == old(indexedResults) && searchIndex == old(searchIndex)
    {
      ghost var end := BatchEnd(searchIndex, |searchPaths|);
      if |indexedResults| < |searchPaths| {
        for i := 0 to BatchSize
          invariant Valid()
          invariant searchIndex == old(searchIndex) + i <= end
          invariant forall key :: key in old(indexedResults) ==>
            key in indexedResults && indexedResults[key] == old(indexedResults)[key]
        {
          // early finish
          if |indexedResults| == |searchPaths| {
            break;
          }
          var key := Identifier(searchPaths[searchIndex]);
          if key in indexedResults {
            ClashBreaksDistinct(searchPaths, end, searchIndex);
            return Failure(DuplicateKey(key));
          }
          IndexOfStep(searchPaths, searchIndex);
          indexedResults := indexedResults[key := searchPaths[searchIndex]];
          searchIndex := searchIndex + 1;
        }
      }
      IndexOfSize(searchPaths[..end]);
      if DistinctIds(searchPaths) {
        DistinctIdsPrefix(searchPaths, end);
      }
      r := Success(|indexedResults| == |searchPaths|);
    }

    /** Search: records the query, then ranks the keys of the index. With no
        index yet, or an empty one (no tier list ever allocated), it throws
        NullReference and keeps the previous results; otherwise it lists
        every key containing the query's first three characters exactly
        once, ranked, and shows the first page. */
    method Search(query: string) returns (r: Outcome)
      requires |query| > 2
      modifies this`lastSearch, this`searchResults, this`selectedResults, this`pageIndex
      ensures lastSearch == query
      ensures r.Fail? <==> !indexStarted || |indexedResults| == 0
      ensures r.Fail? ==> r.error == NullReference
      ensures r.Fail? ==>
        searchResults == old(searchResults) && selectedResults == old(selectedResults) && pageIndex == old(pageIndex)
      ensures r.Pass? ==> forall x :: multiset(searchResults)[x] == if x in indexedResults && Hit(query, x) then 1 else 0
      ensures r.Pass? ==> TierMajor(PartialTerms(query), searchResults)
      ensures r.Pass? ==> pageIndex == 0 && Page(searchResults, 0) == Success(selectedResults)
    {
      lastSearch := query;
      if !indexStarted {
        return Fail(NullReference);
      }
      var keys := EnumerateKeys(indexedResults.Keys);
      assert keys == [] <==> |indexedResults| == 0 by {
        if keys != [] {
          assert keys[0] in indexedResults;
        }
        if |indexedResults| != 0 {
          var k :| k in indexedResults;
          assert k in keys;
        }
      }
      var ranked := RankedSearch(query, keys);
      if ranked.Failure? {
        return Fail(ranked.error);
      }
      searchResults := ranked.value;
      r := SetPageIndex(0);
    }

    /** The PageIndex setter: stores the page index, then takes the page
        with List.GetRange, which throws for a page outside 0..MaxPageIndex
        and leaves the shown results as they were. */
    method SetPageIndex(value: int) returns (r: Outcome)
      modifies this`pageIndex, this`selectedResults
      ensures pageIndex == value
      ensures r.Pass? <==> 0 <= value <= MaxPageIndex(|searchResults|)
      ensures r.Pass? ==> Page(searchResults, value) == Success(selectedResults)
      ensures r.Fail? ==> selectedResults == old(selectedResults) && Page(searchResults, value) == Failure(r.error)
    {
      pageIndex := value;
      var page := GetRange(
        searchResults,
        ResultsPerPage * pageIndex,
        if pageIndex == MaxPageIndex(|searchResults|) then |searchResults| % ResultsPerPage else ResultsPerPage
      );
      PageInRange(searchResults, value);
      match page {
        case Success(s) =>
          selectedResults := s;
          r := Pass;
        case Failure(e) =>
          r := Fail(e);
      }
    }
  }
}
