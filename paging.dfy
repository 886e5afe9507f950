/** The page view over the ranked results: MaxPageIndex and the slice the
    PageIndex setter takes with List.GetRange. */
module Paging {
  import opened Outcomes

  /** RESULTS_PER_PAGE: the number of results on a full page. */
  const ResultsPerPage: nat := 30

  /** MaxPageIndex: the index of the last page, floor(count / 30). */
  function MaxPageIndex(count: nat): (m: nat)
    ensures ResultsPerPage * m <= count < ResultsPerPage * (m + 1)
  {
    count / ResultsPerPage
  }

  /** List.GetRange(index, count): the `count` elements from `index`, or the
      exception the library raises for a range outside the list. */
  function GetRange<T>(s: seq<T>, index: int, count: int): (r: Result<seq<T>>)
    ensures r.Success? <==> 0 <= index && 0 <= count && index + count <= |s|
    ensures r.Success? ==> |r.value| == count
    ensures r.Success? ==> forall k :: 0 <= k < count ==> r.value[k] == s[index + k]
  {
    if index < 0 || count < 0 then Failure(ArgumentOutOfRange)
    else if |s| - index < count then Failure(Argument)
    else Success(s[index..index + count])
  }

  /** The number of results the setter asks for on page `p`: a full page,
      except the remainder on the last one. */
  function PageLength(count: nat, p: int): (len: nat)
    ensures len <= ResultsPerPage
    ensures p == MaxPageIndex(count) ==> ResultsPerPage * p + len == count
  {
    if p == MaxPageIndex(count) then count % ResultsPerPage else ResultsPerPage
  }

  /** The PageIndex setter's slice of `results` for page `p`. */
  function Page<T>(results: seq<T>, p: int): (r: Result<seq<T>>)
    ensures r.Success? ==> |r.value| <= ResultsPerPage
    ensures r.Success? ==> 0 <= ResultsPerPage * p && ResultsPerPage * p + |r.value| <= |results|
    ensures r.Success? ==> forall k :: 0 <= k < |r.value| ==> r.value[k] == results[ResultsPerPage * p + k]
  {
    GetRange(results, ResultsPerPage * p, PageLength(|results|, p))
  }

  /** The slice succeeds exactly for the pages 0..MaxPageIndex; a full page
      before the last, the remainder (possibly nothing) on the last. */
  lemma PageInRange<T>(results: seq<T>, p: int)
    ensures Page(results, p).Success? <==> 0 <= p <= MaxPageIndex(|results|)
    ensures Page(results, p).Success? ==>
      Page(results, p).value == results[ResultsPerPage * p..ResultsPerPage * p + PageLength(|results|, p)]
    ensures 0 <= p < MaxPageIndex(|results|) ==> |Page(results, p).value| == ResultsPerPage
    ensures p == MaxPageIndex(|results|) ==> |Page(results, p).value| == |results| % ResultsPerPage
  {
    var n, m := |results|, MaxPageIndex(|results|);
    assert n == ResultsPerPage * m + n % ResultsPerPage;
    if p > m {
      assert ResultsPerPage * p >= ResultsPerPage * (m + 1);
    }
    var r := Page(results, p);
    if r.Success? {
      assert r.value == results[ResultsPerPage * p..ResultsPerPage * p + PageLength(n, p)];
    }
  }

  /** Pages 0..k-1 laid end to end. */
  function PagesBefore<T>(results: seq<T>, k: nat): seq<T>
    requires k <= MaxPageIndex(|results|) + 1
  {
    if k == 0 then []
    else
      PageInRange(results, k - 1);
      PagesBefore(results, k - 1) + Page(results, k - 1).value
  }

  /** The pages before page k are exactly the first 30*k results, and all
      pages together are the whole list, with no gap and no overlap. */
  lemma {:induction false} PagesCover<T>(results: seq<T>, k: nat)
    requires k <= MaxPageIndex(|results|) + 1
    ensures k <= MaxPageIndex(|results|) ==> PagesBefore(results, k) == results[..ResultsPerPage * k]
    ensures k == MaxPageIndex(|results|) + 1 ==> PagesBefore(results, k) == results
  {
    var n, m := |results|, MaxPageIndex(|results|);
    assert n == ResultsPerPage * m + n % ResultsPerPage;
    if k > 0 {
      PagesCover(results, k - 1);
      PageInRange(results, k - 1);
      var start := ResultsPerPage * (k - 1);
      var page := Page(results, k - 1).value;
      if k - 1 < m {
        assert results[..start] + results[start..start + ResultsPerPage] == results[..start + ResultsPerPage];
      } else {
        assert results[..start] + results[start..n] == results;
      }
    }
  }

  /** The example of 65 results: three pages of 30, 30 and 5. */
  lemma SixtyFiveResults<T>(results: seq<T>)
    requires |results| == 65
    ensures MaxPageIndex(|results|) == 2
    ensures |Page(results, 0).value| == 30 && |Page(results, 1).value| == 30
    ensures |Page(results, 2).value| == 5
  {
    PageInRange(results, 0);
    PageInRange(results, 1);
    PageInRange(results, 2);
  }

  /** At an exact multiple of 30 the last page is in range and empty. */
  lemma {:induction false} ExactMultipleLastPageEmpty<T>(results: seq<T>)
    requires |results| % ResultsPerPage == 0
    ensures Page(results, MaxPageIndex(|results|)) == Success([])
  {
    PageInRange(results, MaxPageIndex(|results|));
  }
}
