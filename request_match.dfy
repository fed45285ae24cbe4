/**
 * The regular-expression tests that decide which requests and responses
 * the middlewares take over: the URL test `/\.less(?:\?.*)?$/` (and its
 * `.scss`/`.sass` twin), the media-type test
 * `/^text\/less(?:;\s*charset=([a-z0-9\-]+))?$/i` (and its
 * `text/x-scss`/`text/x-sass` twin), and the `Accept` test.
 */
module RequestMatch {
  import opened Wrappers
  import opened JsText

  // ---------------------------------------------------------------------
  // URL extension with an optional query string
  // ---------------------------------------------------------------------

  /** `(?:\?.*)?$` from index `k`: the end, or `?` and then no line terminator. */
  predicate QueryTailAt(url: string, k: int) {
    k == |url| ||
    (0 <= k < |url| && url[k] == '?' && forall j :: k < j < |url| ==> !IsLineTerminator(url[j]))
  }

  /** The pattern matches with the extension found at index `i`. */
  predicate ExtensionAt(url: string, ext: string, i: int) {
    OccursAt(url, ext, i) && QueryTailAt(url, i + |ext|)
  }

  /** The regex search from index `i` on. */
  function SearchExtension(url: string, ext: string, i: nat): (r: bool)
    ensures r <==> exists j :: i <= j && ExtensionAt(url, ext, j)
    decreases |url| - i
  {
    if i > |url| then false
    else ExtensionAt(url, ext, i) || SearchExtension(url, ext, i + 1)
  }

  /** `/\<ext>(?:\?.*)?$/.test(url)` for an extension written with its dot. */
  predicate HasExtension(url: string, ext: string)
    ensures HasExtension(url, ext) <==> exists j :: ExtensionAt(url, ext, j)
  {
    SearchExtension(url, ext, 0)
  }

  /** A path that ends in the extension matches. */
  lemma PathWithExtension(path: string, ext: string)
    ensures HasExtension(path + ext, ext)
  {
    var url := path + ext;
    assert url[|path|..|path| + |ext|] == ext;
    assert ExtensionAt(url, ext, |path|);
  }

  /** So does a path with the extension and a query string on one line. */
  lemma PathWithExtensionAndQuery(path: string, ext: string, query: string)
    requires forall j :: 0 <= j < |query| ==> !IsLineTerminator(query[j])
    ensures HasExtension(path + ext + "?" + query, ext)
  {
    var url := path + ext + "?" + query;
    var k := |path| + |ext|;
    assert url[|path|..k] == ext;
    assert url[k] == '?';
    assert forall j :: k < j < |url| ==> url[j] == query[j - k - 1];
    assert ExtensionAt(url, ext, |path|);
  }

  /**
   * A URL without `?` matches only when it ends in the extension; for
   * example `/css/a.css` is never taken for `.less`.
   */
  lemma NoQueryMatchesOnlySuffix(url: string, ext: string)
    requires '?' !in url
    ensures HasExtension(url, ext) <==> EndsWith(url, ext)
  {
    if EndsWith(url, ext) {
      assert ExtensionAt(url, ext, |url| - |ext|);
    }
    if HasExtension(url, ext) {
      var i :| 0 <= i && ExtensionAt(url, ext, i);
      assert i + |ext| == |url|;
    }
  }

  // ---------------------------------------------------------------------
  // Content type
  // ---------------------------------------------------------------------

  /** `[a-z0-9\-]`, applied after ASCII case folding. */
  predicate IsCharsetChar(c: char) {
    ('a' <= c <= 'z') || ('0' <= c <= '9') || c == '-'
  }

  /** The length of the `\s*` run that begins `s`. */
  function LeadingWhitespace(s: string): (n: nat)
    ensures n <= |s|
    ensures forall j :: 0 <= j < n ==> IsJsWhitespace(s[j])
    ensures n < |s| ==> !IsJsWhitespace(s[n])
  {
    if s == [] || !IsJsWhitespace(s[0]) then 0 else 1 + LeadingWhitespace(s[1..])
  }

  /** `(?:;\s*charset=([a-z0-9\-]+))?$` on the folded remainder after the media type. */
  predicate CharsetParam(t: string) {
    t == [] ||
    (t[0] == ';' &&
     var u := t[1 + LeadingWhitespace(t[1..])..];
     |u| > 8 && u[..8] == "charset=" && forall k :: 8 <= k < |u| ==> IsCharsetChar(u[k]))
  }

  /** The parameter with `charset=` starting at index `w`. */
  predicate CharsetParamAt(t: string, w: int) {
    1 <= w && w + 8 < |t| && t[0] == ';' &&
    (forall j :: 1 <= j < w ==> IsJsWhitespace(t[j])) &&
    t[w..w + 8] == "charset=" &&
    (forall j :: w + 8 <= j < |t| ==> IsCharsetChar(t[j]))
  }

  /** The scan of `CharsetParam` accepts exactly the remainders the pattern describes. */
  lemma CharsetParamExact(t: string)
    ensures CharsetParam(t) <==> t == [] || exists w :: CharsetParamAt(t, w)
  {
    if t != [] && t[0] == ';' {
      var n := LeadingWhitespace(t[1..]);
      var u := t[1 + n..];
      if CharsetParam(t) {
        assert forall j :: 1 <= j < 1 + n ==> t[j] == t[1..][j - 1];
        assert forall j :: 1 + n + 8 <= j < |t| ==> t[j] == u[j - 1 - n];
        assert CharsetParamAt(t, 1 + n);
      }
      if w :| CharsetParamAt(t, w) {
        assert t[w..w + 8][0] == 'c';
        assert t[w] == 'c' && !IsJsWhitespace(t[w]);
        assert n == w - 1;
        assert u == t[w..];
        assert u[..8] == t[w..w + 8];
        assert forall k :: 8 <= k < |u| ==> u[k] == t[w + k];
        assert CharsetParam(t);
      }
    }
  }

  /**
   * `contentType.match(/^<mediaType>(?:;\s*charset=([a-z0-9\-]+))?$/i)`
   * for a lower-case media type. Every letter case of the bare media type
   * matches, and a match is never shorter than the media type.
   */
  predicate MatchesMediaType(contentType: string, mediaType: string)
    ensures LowerAscii(contentType) == mediaType ==> MatchesMediaType(contentType, mediaType)
    ensures MatchesMediaType(contentType, mediaType) ==> |contentType| >= |mediaType|
  {
    var folded := LowerAscii(contentType);
    assert folded == mediaType ==> folded[|mediaType|..] == [];
    StartsWith(folded, mediaType) && CharsetParam(folded[|mediaType|..])
  }

  /** The media type with a charset parameter matches. */
  lemma {:induction false} CharsetMediaTypeMatches(mediaType: string, spaces: string, charset: string)
    requires LowerAscii(mediaType) == mediaType
    requires forall j :: 0 <= j < |spaces| ==> spaces[j] == ' '
    requires |charset| > 0 && forall j :: 0 <= j < |charset| ==> IsCharsetChar(charset[j])
    ensures MatchesMediaType(mediaType + ";" + spaces + "charset=" + charset, mediaType)
  {
    var t := ";" + spaces + "charset=" + charset;
    var ct := mediaType + t;
    assert ct == mediaType + ";" + spaces + "charset=" + charset;
    LowerAsciiAppend(mediaType, t);
    ParamHasNoUpper(spaces, charset);
    var folded := LowerAscii(ct);
    assert folded == mediaType + t;
    assert folded[..|mediaType|] == mediaType;
    assert folded[|mediaType|..] == t;
    CharsetParamOf(spaces, charset);
  }

  lemma {:induction false} ParamHasNoUpper(spaces: string, charset: string)
    requires forall j :: 0 <= j < |spaces| ==> spaces[j] == ' '
    requires forall j :: 0 <= j < |charset| ==> IsCharsetChar(charset[j])
    ensures LowerAscii(";" + spaces + "charset=" + charset) == ";" + spaces + "charset=" + charset
  {
    var a := ";" + spaces;
    var b := a + "charset=";
    assert LowerAscii(spaces) == spaces by {
      LowerAsciiNoUpper(spaces);
    }
    assert LowerAscii(charset) == charset by {
      LowerAsciiNoUpper(charset);
    }
    assert LowerAscii(";") == ";";
    assert LowerAscii("charset=") == "charset=" by {
      LowerAsciiNoUpper("charset=");
    }
    LowerAsciiAppend(";", spaces);
    assert LowerAscii(a) == a;
    LowerAsciiAppend(a, "charset=");
    assert LowerAscii(b) == b;
    LowerAsciiAppend(b, charset);
  }

  lemma {:induction false} CharsetParamOf(spaces: string, charset: string)
    requires forall j :: 0 <= j < |spaces| ==> spaces[j] == ' '
    requires |charset| > 0 && forall j :: 0 <= j < |charset| ==> IsCharsetChar(charset[j])
    ensures CharsetParam(";" + spaces + "charset=" + charset)
  {
    var t := ";" + spaces + "charset=" + charset;
    var w := 1 + |spaces|;
    assert forall j :: 1 <= j < w ==> t[j] == spaces[j - 1];
    assert t[w..w + 8] == "charset=";
    assert forall j :: w + 8 <= j < |t| ==> t[j] == charset[j - w - 8];
    assert CharsetParamAt(t, w);
    CharsetParamExact(t);
  }

  lemma {:induction false} LowerAsciiAppend(a: string, b: string)
    ensures LowerAscii(a + b) == LowerAscii(a) + LowerAscii(b)
  {
    if a == [] {
      assert a + b == b;
    } else {
      assert (a + b)[1..] == a[1..] + b;
      LowerAsciiAppend(a[1..], b);
    }
  }

  /** Text without upper-case ASCII letters is left as it is by folding. */
  lemma {:induction false} LowerAsciiNoUpper(s: string)
    requires forall j :: 0 <= j < |s| ==> !('A' <= s[j] <= 'Z')
    ensures LowerAscii(s) == s
  {
    if s != [] {
      LowerAsciiNoUpper(s[1..]);
      assert [s[0]] + s[1..] == s;
    }
  }

  /** A content type whose first letter differs from the media type's does not match. */
  lemma FirstLetterDiffers(contentType: string, mediaType: string)
    requires |contentType| > 0 && |mediaType| > 0 && LowerChar(contentType[0]) != mediaType[0]
    ensures !MatchesMediaType(contentType, mediaType)
  {
    LowerAsciiAt(contentType, 0);
  }

  /** Letter case does not matter. */
  lemma MediaTypeCaseInsensitive(contentType: string, mediaType: string)
    ensures MatchesMediaType(contentType, mediaType) <==> MatchesMediaType(LowerAscii(contentType), mediaType)
  {
    LowerAsciiIdempotent(contentType);
  }

  lemma {:induction false} LowerAsciiIdempotent(s: string)
    ensures LowerAscii(LowerAscii(s)) == LowerAscii(s)
  {
    if s != [] {
      LowerAsciiIdempotent(s[1..]);
      var r := LowerAscii(s);
      assert r[1..] == LowerAscii(s[1..]);
    }
  }

  // ---------------------------------------------------------------------
  // Accept
  // ---------------------------------------------------------------------

  /** `req.headers.accept && req.headers.accept.indexOf('text/css') !== -1`. */
  predicate AcceptsCss(accept: Option<string>)
    ensures AcceptsCss(accept) <==> accept.Some? && exists j :: OccursAt(accept.value, "text/css", j)
  {
    accept.Some? && Contains(accept.value, "text/css")
  }
}
