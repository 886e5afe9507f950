/** The string operations of the .NET library that the core relies on:
    ToLower, Contains, Replace(pattern, "") and FileInfo.Name. */
module Text {

  /** ToLower on one character (invariant-culture ASCII letters only). */
  function LowerChar(c: char): char {
    if 'A' <= c <= 'Z' then (c as int + 32) as char else c
  }

  /** String.ToLower: a length-preserving map of every character that
      leaves no upper-case letter and changes nothing else. */
  function Lower(s: string): (r: string)
    ensures |r| == |s|
    ensures forall i :: 0 <= i < |s| ==> r[i] == LowerChar(s[i])
    ensures forall i :: 0 <= i < |r| ==> !('A' <= r[i] <= 'Z')
    ensures forall i :: 0 <= i < |s| && !('A' <= s[i] <= 'Z') ==> r[i] == s[i]
  {
    seq(|s|, i requires 0 <= i < |s| => LowerChar(s[i]))
  }

  /** Lower-casing a prefix gives the prefix of the lower-cased string. */
  lemma LowerPrefix(s: string, k: nat)
    requires k <= |s|
    ensures Lower(s[..k]) == Lower(s)[..k]
  {
    forall i | 0 <= i < k ensures Lower(s[..k])[i] == Lower(s)[..k][i] {
      assert s[..k][i] == s[i];
    }
  }

  /** Lower-casing twice is lower-casing once. */
  lemma LowerIdempotent(s: string)
    ensures Lower(Lower(s)) == Lower(s)
  {
    forall i | 0 <= i < |s| ensures Lower(Lower(s))[i] == Lower(s)[i] {
      assert !('A' <= Lower(s)[i] <= 'Z');
    }
  }

  /** `t` occurs in `s` starting at position `i`. */
  predicate OccursAt(s: string, t: string, i: nat) {
    i + |t| <= |s| && s[i..i + |t|] == t
  }

  /** String.Contains, ordinal comparison. */
  predicate Contains(s: string, t: string): (b: bool)
    ensures b ==> |t| <= |s|
    ensures |t| == 0 || s == t ==> b
  {
    assert OccursAt(s, [], 0);
    assert s == t ==> OccursAt(s, t, 0);
    exists i: nat | i <= |s| :: OccursAt(s, t, i)
  }

  /** A string does not contain a term holding a character it lacks. */
  lemma MissingChar(s: string, t: string, c: char)
    requires c in t && c !in s
    ensures !Contains(s, t)
  {
    var j :| 0 <= j < |t| && t[j] == c;
    forall i: nat | i <= |s| ensures !OccursAt(s, t, i) {
      if i + |t| <= |s| {
        assert s[i..i + |t|][j] == s[i + j];
      }
    }
  }

  /** What the tail of a string contains, the string contains. */
  lemma ContainsTail(s: string, t: string)
    requires |s| > 0 && !Contains(s, t)
    ensures !Contains(s[1..], t)
  {
    forall i: nat | i <= |s[1..]| ensures !OccursAt(s[1..], t, i) {
      assert !OccursAt(s, t, i + 1);
      if i + |t| <= |s[1..]| {
        assert s[1..][i..i + |t|] == s[i + 1..i + 1 + |t|];
      }
    }
  }

  /** Every prefix of a string that occurs in `s` occurs in `s` too. */
  lemma ContainsPrefix(s: string, t: string, k: nat)
    requires Contains(s, t) && k <= |t|
    ensures Contains(s, t[..k])
  {
    var i: nat :| i <= |s| && OccursAt(s, t, i);
    assert s[i..i + k] == t[..k] by {
      forall m | 0 <= m < k ensures s[i..i + k][m] == t[..k][m] {
        assert s[i..i + |t|][m] == t[m];
      }
    }
    assert OccursAt(s, t[..k], i);
  }

  /** String.Replace(pat, ""): deletes the non-overlapping occurrences of
      `pat` found by one left-to-right scan of `s`. */
  function RemoveAll(s: string, pat: string): (r: string)
    requires |pat| > 0
    ensures |r| <= |s|
    decreases |s|
  {
    if |s| < |pat| then s
    else if s[..|pat|] == pat then RemoveAll(s[|pat|..], pat)
    else [s[0]] + RemoveAll(s[1..], pat)
  }

  /** A string without any occurrence of `pat` is left as it is. */
  lemma {:induction false} RemoveAllAbsent(s: string, pat: string)
    requires |pat| > 0 && !Contains(s, pat)
    ensures RemoveAll(s, pat) == s
    decreases |s|
  {
    if |s| >= |pat| {
      assert !OccursAt(s, pat, 0);
      assert s[..|pat|] != pat;
      ContainsTail(s, pat);
      RemoveAllAbsent(s[1..], pat);
      assert [s[0]] + s[1..] == s;
    }
  }

  /** Removing ".html" from a name followed by ".html" gives back that
      name, dots and all, unless the name holds ".html" itself: the
      extension is stripped and nothing else. */
  lemma {:induction false} RemoveHtmlSuffix(name: string)
    requires !Contains(name, ".html")
    ensures RemoveAll(name + ".html", ".html") == name
    decreases |name|
  {
    var s := name + ".html";
    if name == [] {
      assert s[..5] == ".html";
      assert s[5..] == [];
    } else {
      if |name| >= 5 {
        assert !OccursAt(name, ".html", 0);
        assert s[..5] == name[..5];
      } else {
        assert s[..5][|name|] == '.' != ".html"[|name|];
      }
      assert s[1..] == name[1..] + ".html";
      ContainsTail(name, ".html");
      RemoveHtmlSuffix(name[1..]);
      assert [name[0]] + name[1..] == name;
    }
  }

  /** The characters that end a directory name in a path. */
  predicate IsSeparator(c: char) {
    c == '/' || c == '\\'
  }

  /** The position just after the last separator of `path[..end]`, or 0
      when there is none. */
  function NameStart(path: string, end: nat): (r: nat)
    requires end <= |path|
    ensures r <= end
    ensures r > 0 ==> IsSeparator(path[r - 1])
    ensures forall i :: r <= i < end ==> !IsSeparator(path[i])
  {
    if end == 0 then 0
    else if IsSeparator(path[end - 1]) then end
    else NameStart(path, end - 1)
  }

  /** FileInfo.Name: the part of `path` after its last separator. */
  function FileName(path: string): (r: string)
    ensures |r| <= |path| && r == path[|path| - |r|..]
  {
    path[NameStart(path, |path|)..]
  }

  /** The file name holds no separator, and a separator comes just before
      it unless it is the whole path. */
  lemma FileNameShape(path: string)
    ensures forall i :: 0 <= i < |FileName(path)| ==> !IsSeparator(FileName(path)[i])
    ensures |FileName(path)| < |path| ==> IsSeparator(path[|path| - |FileName(path)| - 1])
  {
    var start := NameStart(path, |path|);
    forall i | 0 <= i < |FileName(path)| ensures !IsSeparator(FileName(path)[i]) {
      assert FileName(path)[i] == path[start + i];
    }
  }

  /** The name of a file in a directory is what follows the separator. */
  lemma FileNameOfJoin(dir: string, sep: char, name: string)
    requires IsSeparator(sep)
    requires forall c :: c in name ==> !IsSeparator(c)
    ensures FileName(dir + [sep] + name) == name
  {
    var path := dir + [sep] + name;
    var start := NameStart(path, |path|);
    assert path[|dir|] == sep;
    forall i | |dir| + 1 <= i < |path| ensures !IsSeparator(path[i]) {
      assert path[i] == name[i - |dir| - 1];
    }
    assert start == |dir| + 1;
    assert path[start..] == name;
  }
}
