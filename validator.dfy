/**
 * Cache validators. lib/compiless.js builds
 * `"<downstream ETag without quotes>[-<digest of the sorted imports' name,
 * mtime and size>]-compiless"`; lib/index.js builds
 * `<digest of the CSS>-compile-sass`. MD5 (RFC 1321) is a parameter: any
 * function from text to 32 lower-case hexadecimal digits.
 */
module Validator {
  import opened Wrappers
  import opened JsText
  import opened ConditionalGet

  // ---------------------------------------------------------------------
  // Array.prototype.sort() on strings
  // ---------------------------------------------------------------------

  /** The default comparison of `sort()`: lexicographic, character by character. */
  predicate StrLeq(a: string, b: string)
    decreases |a|
  {
    a == [] || (b != [] && (a[0] < b[0] || (a[0] == b[0] && StrLeq(a[1..], b[1..]))))
  }

  lemma {:induction false} StrLeqTotal(a: string, b: string)
    ensures StrLeq(a, b) || StrLeq(b, a)
    decreases |a|
  {
    if a != [] && b != [] && a[0] == b[0] {
      StrLeqTotal(a[1..], b[1..]);
    }
  }

  lemma {:induction false} StrLeqAntisymmetric(a: string, b: string)
    requires StrLeq(a, b) && StrLeq(b, a)
    ensures a == b
    decreases |a|
  {
    if a != [] {
      StrLeqAntisymmetric(a[1..], b[1..]);
      assert a == [a[0]] + a[1..] && b == [b[0]] + b[1..];
    }
  }

  lemma {:induction false} StrLeqTransitive(a: string, b: string, c: string)
    requires StrLeq(a, b) && StrLeq(b, c)
    ensures StrLeq(a, c)
    decreases |a|
  {
    if a != [] && a[0] == b[0] && b[0] == c[0] {
      StrLeqTransitive(a[1..], b[1..], c[1..]);
    }
  }

  predicate Sorted(s: seq<string>) {
    forall i, j :: 0 <= i < j < |s| ==> StrLeq(s[i], s[j])
  }

  lemma {:induction false} StrLeqReflexive(a: string)
    ensures StrLeq(a, a)
    decreases |a|
  {
    if a != [] {
      StrLeqReflexive(a[1..]);
    }
  }

  /** `x` is no greater than any element of `s`. */
  predicate Below(x: string, s: seq<string>) {
    forall j :: 0 <= j < |s| ==> StrLeq(x, s[j])
  }

  lemma SortedCons(x: string, s: seq<string>)
    requires Sorted(s) && Below(x, s)
    ensures Sorted([x] + s)
  {
    assert forall j :: 1 <= j < |[x] + s| ==> ([x] + s)[j] == s[j - 1];
  }

  lemma SortedTail(s: seq<string>)
    requires Sorted(s) && s != []
    ensures Sorted(s[1..]) && Below(s[0], s[1..])
  {
    assert forall j :: 0 <= j < |s[1..]| ==> s[1..][j] == s[j + 1];
  }

  /** Anything no greater than the head of a sorted list is below all of it. */
  lemma BelowSorted(y: string, s: seq<string>)
    requires Sorted(s) && s != [] && StrLeq(y, s[0])
    ensures Below(y, s)
  {
    forall j | 1 <= j < |s| ensures StrLeq(y, s[j]) {
      StrLeqTransitive(y, s[0], s[j]);
    }
  }

  function Insert(x: string, s: seq<string>): (r: seq<string>)
    requires Sorted(s)
    ensures Sorted(r)
    ensures multiset(r) == multiset(s) + multiset{x}
    ensures r != [] && (r[0] == x || (s != [] && r[0] == s[0]))
  {
    if s == [] then [x]
    else
      SortedTail(s);
      assert s == [s[0]] + s[1..];
      if StrLeq(x, s[0]) then
        BelowSorted(x, s);
        SortedCons(x, s);
        [x] + s
      else
        var rest := Insert(x, s[1..]);
        StrLeqTotal(x, s[0]);
        assert StrLeq(s[0], rest[0]);
        BelowSorted(s[0], rest);
        SortedCons(s[0], rest);
        [s[0]] + rest
  }

  /** The model of `importedFileNames.sort()`: sorted, and a permutation of the input. */
  function SortStrings(s: seq<string>): (r: seq<string>)
    ensures Sorted(r)
    ensures multiset(r) == multiset(s)
  {
    if s == [] then []
    else
      assert s == [s[0]] + s[1..];
      Insert(s[0], SortStrings(s[1..]))
  }

  /** The head of a sorted list is no greater than anything in it. */
  lemma SortedHeadLeast(a: seq<string>, x: string)
    requires Sorted(a) && x in multiset(a)
    ensures a != [] && StrLeq(a[0], x)
  {
    var i :| 0 <= i < |a| && a[i] == x;
    if i == 0 {
      StrLeqReflexive(x);
    }
  }

  lemma MultisetTail(a: seq<string>)
    requires a != []
    ensures multiset(a[1..]) == multiset(a) - multiset{a[0]}
  {
    assert a == [a[0]] + a[1..];
  }

  /** Two sorted lists holding the same names are the same list. */
  lemma {:induction false} SortedUnique(a: seq<string>, b: seq<string>)
    requires Sorted(a) && Sorted(b) && multiset(a) == multiset(b)
    ensures a == b
    decreases |a|
  {
    if a != [] {
      assert a[0] in multiset(a);
      SortedHeadLeast(b, a[0]);
      SortedHeadLeast(a, b[0]);
      StrLeqAntisymmetric(a[0], b[0]);
      MultisetTail(a);
      MultisetTail(b);
      SortedTail(a);
      SortedTail(b);
      SortedUnique(a[1..], b[1..]);
      assert a == [a[0]] + a[1..] && b == [b[0]] + b[1..];
    } else {
      assert |multiset(b)| == 0;
    }
  }

  /** Sorting forgets the original order: permutations sort to the same list. */
  lemma SortPermutationInvariant(a: seq<string>, b: seq<string>)
    requires multiset(a) == multiset(b)
    ensures SortStrings(a) == SortStrings(b)
  {
    SortedUnique(SortStrings(a), SortStrings(b));
  }

  // ---------------------------------------------------------------------
  // Digests
  // ---------------------------------------------------------------------

  /** What `digest('hex')` of an MD5 hash returns: 32 lower-case hexadecimal digits. */
  type Md5Hex = s: string | |s| == 32 && forall k :: 0 <= k < |s| ==> s[k] in Digits
    witness "00000000000000000000000000000000"

  /** `fs.stat` as far as the validator uses it: `mtime.getTime()` and `size`. */
  datatype FileStat = FileStat(mtimeMs: int, size: nat)

  /** `.digest('hex').substr(0, 16)`: the first sixteen hexadecimal digits. */
  function ShortDigest(md5: string -> Md5Hex, text: string): (r: string)
    ensures |r| == 16
    ensures forall k :: 0 <= k < |r| ==> r[k] in Digits
  {
    Take(md5(text), 16)
  }

  /** The `importedFileStats` array: name, mtime and size of every file, in order. */
  function StatFields(names: seq<string>, stats: map<string, FileStat>): (r: seq<string>)
    requires forall k :: 0 <= k < |names| ==> names[k] in stats
    ensures |r| == 3 * |names|
  {
    if names == [] then []
    else
      var n := |names| - 1;
      StatFields(names[..n], stats) + [names[n], IntToString(stats[names[n]].mtimeMs), NatToString(stats[names[n]].size, 10)]
  }

  /** The fields of the `k`-th file sit at positions `3k`, `3k+1` and `3k+2`. */
  lemma {:induction false} StatFieldsAt(names: seq<string>, stats: map<string, FileStat>, k: nat)
    requires forall k :: 0 <= k < |names| ==> names[k] in stats
    requires k < |names|
    ensures var r := StatFields(names, stats);
            && r[3 * k] == names[k]
            && r[3 * k + 1] == IntToString(stats[names[k]].mtimeMs)
            && r[3 * k + 2] == NatToString(stats[names[k]].size, 10)
  {
    var n := |names| - 1;
    var init := names[..n];
    if k < n {
      StatFieldsAt(init, stats, k);
      assert init[k] == names[k];
    }
  }

  /** The digest over the sorted imports. */
  function ImportsDigest(names: seq<string>, stats: map<string, FileStat>, md5: string -> Md5Hex): string
    requires forall k :: 0 <= k < |names| ==> names[k] in stats
  {
    var sorted := SortStrings(names);
    assert forall k :: 0 <= k < |sorted| ==> sorted[k] in stats by {
      forall k | 0 <= k < |sorted| ensures sorted[k] in stats {
        assert sorted[k] in multiset(names);
      }
    }
    ShortDigest(md5, Join(StatFields(sorted, stats), "-"))
  }

  // ---------------------------------------------------------------------
  // The Less validator
  // ---------------------------------------------------------------------

  const CompilessTag: string := "-compiless"

  /** `oldETag.replace(/^"|"$/g, '')`: one leading and one trailing quote go. */
  function StripQuotes(etag: string): (r: string)
    ensures |r| <= |etag|
    ensures forall k :: 0 <= k < |r| ==> r[k] in etag
    // Quoted on both sides: both quotes go, the inside is kept.
    ensures |etag| >= 2 && etag[0] == '"' && etag[|etag| - 1] == '"' ==> r == etag[1..|etag| - 1]
    // No quote at either end: the value is kept as it is.
    ensures (etag == [] || (etag[0] != '"' && etag[|etag| - 1] != '"')) ==> r == etag
    // A quote at one end only: only that quote goes.
    ensures |etag| >= 1 && etag[0] == '"' && etag[|etag| - 1] != '"' ==> r == etag[1..]
    ensures |etag| >= 1 && etag[0] != '"' && etag[|etag| - 1] == '"' ==> r == etag[..|etag| - 1]
    // A lone quote is both the leading and the trailing one.
    ensures etag == "\"" ==> r == ""
  {
    var a := if |etag| > 0 && etag[0] == '"' then etag[1..] else etag;
    assert forall k :: 0 <= k < |a| ==> a[k] in etag;
    if |a| > 0 && a[|a| - 1] == '"' then a[..|a| - 1] else a
  }

  /**
   * The ETag compiless sets when the downstream response carried
   * `downstream`: quoted, and carrying the `-compiless` tag the
   * If-None-Match filter looks for.
   */
  function CompilessETag(downstream: string, names: seq<string>, stats: map<string, FileStat>,
                         md5: string -> Md5Hex): (r: string)
    requires forall k :: 0 <= k < |names| ==> names[k] in stats
    ensures |r| >= 2 && r[0] == '"' && CarriesTag(r, CompilessTag)
  {
    var fragments := [StripQuotes(downstream)] +
                     (if |names| == 0 then [] else [ImportsDigest(names, stats, md5)]);
    var r := "\"" + Join(fragments, "-") + CompilessTag + "\"";
    var t := CompilessTag + "\"";
    assert r[|r| - |t|..] == t;
    r
  }

  /**
   * The ETag does not depend on the order in which the compiler listed the
   * imports.
   */
  lemma CompilessETagOrderIndependent(downstream: string, a: seq<string>, b: seq<string>,
                                      stats: map<string, FileStat>, md5: string -> Md5Hex)
    requires forall k :: 0 <= k < |a| ==> a[k] in stats
    requires multiset(a) == multiset(b)
    ensures forall k :: 0 <= k < |b| ==> b[k] in stats
    ensures CompilessETag(downstream, a, stats, md5) == CompilessETag(downstream, b, stats, md5)
  {
    forall k | 0 <= k < |b| ensures b[k] in stats {
      assert b[k] in multiset(a);
    }
    SortPermutationInvariant(a, b);
    assert |a| == |multiset(a)| == |multiset(b)| == |b|;
  }

  /** Without imports the ETag is the downstream ETag, unquoted, with the tag added. */
  lemma CompilessETagWithoutImports(downstream: string, stats: map<string, FileStat>, md5: string -> Md5Hex)
    ensures CompilessETag(downstream, [], stats, md5) == "\"" + StripQuotes(downstream) + CompilessTag + "\""
  {
    assert Join([StripQuotes(downstream)], "-") == StripQuotes(downstream);
  }

  /** A strong entity-tag `"x"` loses its two quotes and nothing else. */
  lemma StripQuotesStrong(x: string)
    ensures StripQuotes("\"" + x + "\"") == x
  {
    var e := "\"" + x + "\"";
    assert e[1..|e| - 1] == x;
  }

  /** A weak entity-tag `W/"x"` keeps its `W/"` prefix: only the trailing quote goes. */
  lemma StripQuotesWeak(x: string)
    ensures StripQuotes("W/\"" + x + "\"") == "W/\"" + x
  {
    var e := "W/\"" + x + "\"";
    assert e[..|e| - 1] == "W/\"" + x;
  }

  /**
   * With imports the ETag is the unquoted downstream ETag and the digest of
   * the sorted imports' stats, joined by `-`, then the tag, all quoted.
   */
  lemma CompilessETagWithImports(downstream: string, names: seq<string>, stats: map<string, FileStat>,
                                 md5: string -> Md5Hex)
    requires forall k :: 0 <= k < |names| ==> names[k] in stats
    requires names != []
    ensures CompilessETag(downstream, names, stats, md5)
            == "\"" + StripQuotes(downstream) + "-" + ImportsDigest(names, stats, md5) + CompilessTag + "\""
  {
    var d := ImportsDigest(names, stats, md5);
    var u := StripQuotes(downstream);
    var fragments := [u] + [d];
    assert fragments[1..] == [d];
    assert Join(fragments[1..], "-") == d;
    assert Join(fragments, "-") == u + "-" + d;
  }

  lemma HexNoSpace(d: string)
    requires forall k :: 0 <= k < |d| ==> d[k] in Digits
    ensures ' ' !in d
  {
    assert ' ' !in Digits;
  }

  /** The ETag holds no space, so the space-separated filter sees it as one token. */
  lemma CompilessETagNoSpace(downstream: string, names: seq<string>, stats: map<string, FileStat>,
                             md5: string -> Md5Hex)
    requires forall k :: 0 <= k < |names| ==> names[k] in stats
    requires ' ' !in downstream
    ensures ' ' !in CompilessETag(downstream, names, stats, md5)
  {
    var stripped := StripQuotes(downstream);
    assert ' ' !in stripped;
    var fragments := [stripped] + (if |names| == 0 then [] else [ImportsDigest(names, stats, md5)]);
    if |names| > 0 {
      HexNoSpace(fragments[1]);
    }
    JoinAvoids(fragments, "-", ' ');
    var joined := Join(fragments, "-");
    assert CompilessETag(downstream, names, stats, md5) == "\"" + joined + CompilessTag + "\"";
    assert ' ' !in CompilessTag;
  }

  /**
   * A client that sends back the ETag it was given keeps it through the
   * If-None-Match filter, as long as the downstream ETag has no space.
   */
  lemma CompilessETagSurvivesFilter(downstream: string, names: seq<string>, stats: map<string, FileStat>,
                                    md5: string -> Md5Hex)
    requires forall k :: 0 <= k < |names| ==> names[k] in stats
    requires ' ' !in downstream
    ensures var e := CompilessETag(downstream, names, stats, md5);
            CleanIfNoneMatch(e, CompilessTag) == Some(e)
  {
    var e := CompilessETag(downstream, names, stats, md5);
    CompilessETagNoSpace(downstream, names, stats, md5);
    TaggedTokenSurvives(e, CompilessTag);
  }

  /** The `forEach` of lib/compiless.js:98-101 that collects name, mtime and size. */
  method CollectStats(sorted: seq<string>, statsByFileName: map<string, FileStat>)
    returns (importedFileStats: seq<string>)
    requires forall k :: 0 <= k < |sorted| ==> sorted[k] in statsByFileName
    ensures importedFileStats == StatFields(sorted, statsByFileName)
  {
    importedFileStats := [];
    var i := 0;
    while i < |sorted|
      invariant 0 <= i <= |sorted|
      invariant importedFileStats == StatFields(sorted[..i], statsByFileName)
    {
      var stats := statsByFileName[sorted[i]];
      importedFileStats := importedFileStats + [sorted[i], IntToString(stats.mtimeMs), NatToString(stats.size, 10)];
      assert sorted[..i + 1][..i] == sorted[..i];
      i := i + 1;
    }
    assert sorted[..i] == sorted;
  }

  /** The ETag assembly of lib/compiless.js:95-104. */
  method BuildCompilessETag(oldETag: string, importedFileNames: seq<string>,
                            statsByFileName: map<string, FileStat>, md5: string -> Md5Hex)
    returns (newETag: string)
    requires forall k :: 0 <= k < |importedFileNames| ==> importedFileNames[k] in statsByFileName
    ensures newETag == CompilessETag(oldETag, importedFileNames, statsByFileName, md5)
  {
    var etagFragments := [StripQuotes(oldETag)];
    if |importedFileNames| > 0 {
      var sorted := SortStrings(importedFileNames);
      forall k | 0 <= k < |sorted| ensures sorted[k] in statsByFileName {
        assert sorted[k] in multiset(importedFileNames);
      }
      var importedFileStats := CollectStats(sorted, statsByFileName);
      etagFragments := etagFragments + [ShortDigest(md5, Join(importedFileStats, "-"))];
    }
    newETag := "\"" + Join(etagFragments, "-") + CompilessTag + "\"";
  }

  // ---------------------------------------------------------------------
  // The Sass validator
  // ---------------------------------------------------------------------

  const SassTag: string := "-compile-sass"

  /** The ETag lib/index.js:115 sets: sixteen digits and the tag, WITHOUT quotes. */
  function SassETagAsWritten(cssText: string, md5: string -> Md5Hex): (r: string)
    ensures |r| == 16 + |SassTag| && EndsWith(r, SassTag)
    ensures forall k :: 0 <= k < 16 ==> r[k] in Digits
  {
    var r := ShortDigest(md5, cssText) + SassTag;
    assert r[16..] == SassTag;
    r
  }

  /**
   * That ETag never passes the filter of lib/index.js:64-66: a client that
   * echoes it has its If-None-Match deleted.
   */
  lemma SassETagAsWrittenIsFiltered(cssText: string, md5: string -> Md5Hex)
    ensures var e := SassETagAsWritten(cssText, md5);
            && !CarriesTag(e, SassTag)
            && CleanIfNoneMatch(e, SassTag) == None
  {
    var e := SassETagAsWritten(cssText, md5);
    var d := ShortDigest(md5, cssText);
    assert e[|e| - 1] == 's';
    assert ' ' !in e by {
      assert forall k :: 0 <= k < |d| ==> d[k] in Digits;
      assert forall k :: |d| <= k < |e| ==> e[k] == SassTag[k - |d|];
    }
    UntaggedTokenDropped(e, SassTag);
  }

  /** The quoted form of the same validator. */
  function SassETag(cssText: string, md5: string -> Md5Hex): string {
    "\"" + ShortDigest(md5, cssText) + SassTag + "\""
  }

  /** The quoted form carries the tag and survives the filter unchanged. */
  lemma SassETagSurvivesFilter(cssText: string, md5: string -> Md5Hex)
    ensures var e := SassETag(cssText, md5);
            && CarriesTag(e, SassTag)
            && CleanIfNoneMatch(e, SassTag) == Some(e)
  {
    var e := SassETag(cssText, md5);
    var d := ShortDigest(md5, cssText);
    var t := SassTag + "\"";
    assert e[|e| - |t|..] == t;
    assert ' ' !in e by {
      assert forall k :: 0 <= k < |d| ==> d[k] in Digits;
      assert forall k :: 1 <= k <= |d| ==> e[k] == d[k - 1];
      assert forall k :: |d| + 1 <= k < |e| ==> e[k] == t[k - |d| - 1];
    }
    TaggedTokenSurvives(e, SassTag);
  }
}
