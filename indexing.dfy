/** What the incremental indexer (InstantDoc.IndexDoc) computes: the
    identifier of a documentation page, the filtered file listing, the map
    from identifiers to paths, and the progress of the batch cursor. */
module Indexing {
  import opened Text

  /** IGNORE_SEARCH: the search page of the documentation, never indexed. */
  const IgnoreSearch: string := "30_search.html"

  /** The number of entries one tick of the indexer adds at most. */
  const BatchSize: nat := 100

  /** The key of a page: its file name with every ".html" removed. */
  function Identifier(path: string): string {
    RemoveAll(FileName(path), ".html")
  }

  /** A page "dir/Name.html" is indexed under "Name", dotted names such as
      "Transform.Translate" included. */
  lemma IdentifierOfPage(dir: string, sep: char, name: string)
    requires IsSeparator(sep) && !Contains(name, ".html")
    requires forall c :: c in name ==> !IsSeparator(c)
    ensures Identifier(dir + [sep] + name + ".html") == name
  {
    assert dir + [sep] + name + ".html" == dir + [sep] + (name + ".html");
    FileNameOfJoin(dir, sep, name + ".html");
    RemoveHtmlSuffix(name);
  }

  /** The page of a method, named after its class and the method. */
  lemma MethodPage()
    ensures Identifier("Documentation/en/ScriptReference/Transform.Translate.html") == "Transform.Translate"
  {
    var name := "Transform.Translate";
    assert 'h' in ".html" && 'h' !in name;
    MissingChar(name, ".html", 'h');
    assert "Documentation/en/ScriptReference/Transform.Translate.html"
      == "Documentation/en/ScriptReference" + ['/'] + name + ".html";
    IdentifierOfPage("Documentation/en/ScriptReference", '/', name);
  }

  /** searchPaths.RemoveAll(item => item.Contains(IGNORE_SEARCH)): the
      listing without the paths naming the search page, in order. */
  function WithoutIgnored(files: seq<string>): (r: seq<string>)
    ensures |r| <= |files|
    ensures forall x :: x in r <==> x in files && !Contains(x, IgnoreSearch)
    ensures forall x :: multiset(r)[x] == if Contains(x, IgnoreSearch) then 0 else multiset(files)[x]
  {
    if files == [] then []
    else
      assert files == [files[0]] + files[1..];
      (if Contains(files[0], IgnoreSearch) then [] else [files[0]]) + WithoutIgnored(files[1..])
  }

  /** A listing without the search page is kept whole. */
  lemma {:induction false} WithoutIgnoredNone(files: seq<string>)
    requires forall i :: 0 <= i < |files| ==> !Contains(files[i], IgnoreSearch)
    ensures WithoutIgnored(files) == files
  {
    if files != [] {
      WithoutIgnoredNone(files[1..]);
      assert files == [files[0]] + files[1..];
    }
  }

  /** The paths of `a + b` that are kept are those of `a`, then those of
      `b`: the filter keeps the listing's order. */
  lemma {:induction false} WithoutIgnoredAppend(a: seq<string>, b: seq<string>)
    ensures WithoutIgnored(a + b) == WithoutIgnored(a) + WithoutIgnored(b)
  {
    if a != [] {
      assert (a + b)[1..] == a[1..] + b;
      WithoutIgnoredAppend(a[1..], b);
    } else {
      assert a + b == b;
    }
  }

  /** The index built from `paths` by adding their entries in order: at
      most one entry per path, and the last path found under its own
      identifier. */
  function IndexOf(paths: seq<string>): map<string, string>
  {
    if paths == [] then map[]
    else
      var last := paths[|paths| - 1];
      IndexOf(paths[..|paths| - 1])[Identifier(last) := last]
  }

  /** Every entry of the index maps an identifier to one of the paths
      with that identifier. */
  lemma {:induction false} IndexOfEntries(paths: seq<string>)
    ensures forall k :: k in IndexOf(paths) ==> IndexOf(paths)[k] in paths && Identifier(IndexOf(paths)[k]) == k
  {
    if paths != [] {
      var init := paths[..|paths| - 1];
      IndexOfEntries(init);
      forall k | k in IndexOf(paths)
        ensures IndexOf(paths)[k] in paths && Identifier(IndexOf(paths)[k]) == k
      {
        if k != Identifier(paths[|paths| - 1]) {
          assert IndexOf(paths)[k] == IndexOf(init)[k];
          assert IndexOf(init)[k] in init;
        }
      }
    }
  }

  /** No two paths share an identifier. */
  predicate DistinctIds(paths: seq<string>) {
    forall i, j :: 0 <= i < j < |paths| ==> Identifier(paths[i]) != Identifier(paths[j])
  }

  /** Indexing one more path adds its entry. */
  lemma IndexOfStep(paths: seq<string>, k: nat)
    requires k < |paths|
    ensures IndexOf(paths[..k + 1]) == IndexOf(paths[..k])[Identifier(paths[k]) := paths[k]]
  {
    assert paths[..k + 1][..k] == paths[..k];
  }

  /** The identifier of every indexed path is a key of the index. */
  lemma {:induction false} IndexOfHasIds(paths: seq<string>)
    ensures forall j :: 0 <= j < |paths| ==> Identifier(paths[j]) in IndexOf(paths)
  {
    if paths != [] {
      var init, last := paths[..|paths| - 1], paths[|paths| - 1];
      IndexOfHasIds(init);
      assert IndexOf(paths) == IndexOf(init)[Identifier(last) := last];
      forall j | 0 <= j < |init| ensures Identifier(paths[j]) in IndexOf(paths) {
        assert paths[j] == init[j];
      }
    }
  }

  /** The keys of the index are the identifiers of the paths. */
  lemma IndexOfKeys(paths: seq<string>)
    ensures forall k :: k in IndexOf(paths) <==> exists j :: 0 <= j < |paths| && Identifier(paths[j]) == k
  {
    IndexOfEntries(paths);
    IndexOfHasIds(paths);
    forall k | k in IndexOf(paths)
      ensures exists j :: 0 <= j < |paths| && Identifier(paths[j]) == k
    {
      var j :| 0 <= j < |paths| && paths[j] == IndexOf(paths)[k];
    }
  }

  /** Distinct identifiers stay distinct in a prefix. */
  lemma DistinctIdsPrefix(paths: seq<string>, k: nat)
    requires DistinctIds(paths) && k <= |paths|
    ensures DistinctIds(paths[..k])
  {
    forall i, j | 0 <= i < j < k ensures Identifier(paths[..k][i]) != Identifier(paths[..k][j]) {
      assert paths[..k][i] == paths[i] && paths[..k][j] == paths[j];
    }
  }

  /** The listing extended by one path keeps distinct identifiers exactly
      when the new identifier is not yet a key of the index. */
  lemma DistinctIdsSnoc(paths: seq<string>)
    requires paths != []
    ensures DistinctIds(paths) <==>
      DistinctIds(paths[..|paths| - 1]) && Identifier(paths[|paths| - 1]) !in IndexOf(paths[..|paths| - 1])
  {
    var init, last := paths[..|paths| - 1], paths[|paths| - 1];
    IndexOfKeys(init);
    if DistinctIds(paths) {
      DistinctIdsPrefix(paths, |init|);
      forall j | 0 <= j < |init| ensures Identifier(init[j]) != Identifier(last) {
        assert paths[j] == init[j];
      }
    }
    if DistinctIds(init) && Identifier(last) !in IndexOf(init) {
      forall i, j | 0 <= i < j < |paths| ensures Identifier(paths[i]) != Identifier(paths[j]) {
        assert paths[i] == init[i];
        if j < |init| {
          assert paths[j] == init[j];
        }
      }
    }
  }

  /** With distinct identifiers, no path meets its own identifier among
      the entries added before it. */
  lemma NoClashWhenDistinct(paths: seq<string>, s: nat)
    requires s < |paths|
    ensures DistinctIds(paths) ==> Identifier(paths[s]) !in IndexOf(paths[..s])
  {
    if DistinctIds(paths) {
      DistinctIdsPrefix(paths, s + 1);
      DistinctIdsSnoc(paths[..s + 1]);
      assert paths[..s + 1][..s] == paths[..s];
    }
  }

  /** A path whose identifier is already a key breaks the distinctness of
      every listing prefix that includes it. */
  lemma ClashBreaksDistinct(paths: seq<string>, end: nat, s: nat)
    requires s < end <= |paths|
    ensures Identifier(paths[s]) in IndexOf(paths[..s]) ==> !DistinctIds(paths[..end])
  {
    NoClashWhenDistinct(paths[..end], s);
    assert paths[..end][..s] == paths[..s] && paths[..end][s] == paths[s];
  }

  /** The index has one entry per path exactly when the identifiers are
      distinct; otherwise an earlier entry is hit again. */
  lemma {:induction false} IndexOfSize(paths: seq<string>)
    ensures |IndexOf(paths)| <= |paths|
    ensures |IndexOf(paths)| == |paths| <==> DistinctIds(paths)
  {
    if paths != [] {
      IndexOfSize(paths[..|paths| - 1]);
      DistinctIdsSnoc(paths);
    }
  }

  /** With distinct identifiers every path is found under its identifier. */
  lemma {:induction false} IndexOfLookup(paths: seq<string>, j: nat)
    requires DistinctIds(paths) && j < |paths|
    ensures Identifier(paths[j]) in IndexOf(paths)
    ensures IndexOf(paths)[Identifier(paths[j])] == paths[j]
  {
    var init := paths[..|paths| - 1];
    if j < |init| {
      DistinctIdsPrefix(paths, |init|);
      IndexOfLookup(init, j);
      assert init[j] == paths[j];
    }
  }

  /** Adding the entries of a longer listing keeps every earlier entry. */
  lemma {:induction false} IndexOfGrows(paths: seq<string>, k: nat)
    requires k <= |paths| && DistinctIds(paths)
    ensures forall key :: key in IndexOf(paths[..k]) ==>
      key in IndexOf(paths) && IndexOf(paths)[key] == IndexOf(paths[..k])[key]
  {
    IndexOfKeys(paths[..k]);
    forall key | key in IndexOf(paths[..k])
      ensures key in IndexOf(paths) && IndexOf(paths)[key] == IndexOf(paths[..k])[key]
    {
      var j :| 0 <= j < k && Identifier(paths[..k][j]) == key;
      assert paths[..k][j] == paths[j];
      DistinctIdsPrefix(paths, k);
      IndexOfLookup(paths[..k], j);
      IndexOfLookup(paths, j);
    }
  }

  /** Where the cursor stands after one tick that meets no duplicate:
      at most BatchSize entries further, never past the end. */
  function BatchEnd(k: nat, n: nat): (r: nat)
    requires k <= n
    ensures k <= r <= n && r - k <= BatchSize
    ensures r < n ==> r == k + BatchSize
  {
    if n - k < BatchSize then n else k + BatchSize
  }

  /** The cursor after `ticks` ticks over `n` paths, starting from 0. */
  function CursorAfter(n: nat, ticks: nat): nat
    ensures CursorAfter(n, ticks) <= n
  {
    if ticks == 0 then 0 else BatchEnd(CursorAfter(n, ticks - 1), n)
  }

  /** After t ticks the first min(100 * t, n) paths are indexed. */
  lemma {:induction false} CursorAfterTicks(n: nat, ticks: nat)
    ensures CursorAfter(n, ticks) == if BatchSize * ticks < n then BatchSize * ticks else n
  {
    if ticks > 0 {
      CursorAfterTicks(n, ticks - 1);
    }
  }

  /** ceil(n / 100) ticks index everything, and further ticks stay put. */
  lemma TicksToComplete(n: nat, ticks: nat)
    requires ticks >= (n + BatchSize - 1) / BatchSize
    ensures CursorAfter(n, ticks) == n
  {
    CursorAfterTicks(n, ticks);
  }
}
