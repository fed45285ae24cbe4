/**
 * Conditional-GET header hygiene shared by both middlewares: only the
 * If-None-Match tokens that end in this system's tag (`-compiless"` or
 * `-compile-sass"`) are passed downstream, and If-Modified-Since is
 * always dropped.
 */
module ConditionalGet {
  import opened Wrappers
  import opened JsText

  const IfNoneMatch: string := "if-none-match"
  const IfModifiedSince: string := "if-modified-since"

  /** `/<tag>\"$/.test(token)`: the token ends in the tag and a closing quote. */
  predicate CarriesTag(token: string, tag: string) {
    EndsWith(token, tag + "\"")
  }

  /** The `filter` over the space-separated tokens. */
  function KeepTagged(tokens: seq<string>, tag: string): (r: seq<string>)
    ensures |r| <= |tokens|
    ensures forall t :: t in r <==> t in tokens && CarriesTag(t, tag)
  {
    if tokens == [] then []
    else (if CarriesTag(tokens[0], tag) then [tokens[0]] else []) + KeepTagged(tokens[1..], tag)
  }

  /** The filter keeps the tokens in their order: it distributes over concatenation. */
  lemma {:induction false} KeepTaggedAppend(a: seq<string>, b: seq<string>, tag: string)
    ensures KeepTagged(a + b, tag) == KeepTagged(a, tag) + KeepTagged(b, tag)
  {
    if a == [] {
      assert a + b == b;
    } else {
      var ab := a + b;
      var head := if CarriesTag(a[0], tag) then [a[0]] else [];
      assert ab[0] == a[0] && ab[1..] == a[1..] + b;
      KeepTaggedAppend(a[1..], b, tag);
      assert KeepTagged(ab, tag) == head + KeepTagged(a[1..] + b, tag);
      assert KeepTagged(a, tag) == head + KeepTagged(a[1..], tag);
    }
  }

  /** A list of tagged tokens passes the filter unchanged. */
  lemma {:induction false} KeepTaggedAll(tokens: seq<string>, tag: string)
    requires forall k :: 0 <= k < |tokens| ==> CarriesTag(tokens[k], tag)
    ensures KeepTagged(tokens, tag) == tokens
  {
    if tokens != [] {
      KeepTaggedAll(tokens[1..], tag);
    }
  }

  /**
   * The new value of a non-empty If-None-Match header: the tagged tokens
   * joined by spaces, or None when none is left and the header is deleted.
   */
  function CleanIfNoneMatch(value: string, tag: string): Option<string> {
    var kept := KeepTagged(Split(value, ' '), tag);
    if |kept| > 0 then Some(Join(kept, " ")) else None
  }

  /**
   * The header is deleted exactly when no token carries the tag; otherwise
   * its tokens are exactly the tagged tokens of the original, in order.
   */
  lemma CleanIfNoneMatchTokens(value: string, tag: string)
    ensures var r := CleanIfNoneMatch(value, tag);
            && (r.None? <==> forall k :: 0 <= k < |Split(value, ' ')| ==> !CarriesTag(Split(value, ' ')[k], tag))
            && (r.Some? ==> Split(r.value, ' ') == KeepTagged(Split(value, ' '), tag))
  {
    var tokens := Split(value, ' ');
    var kept := KeepTagged(tokens, tag);
    if |kept| > 0 {
      assert forall k :: 0 <= k < |kept| ==> kept[k] in tokens;
      SplitJoin(kept, ' ');
      assert kept[0] in tokens && CarriesTag(kept[0], tag);
    } else {
      assert forall k :: 0 <= k < |tokens| ==> tokens[k] !in kept;
    }
  }

  /** Rewriting an already rewritten header changes nothing. */
  lemma CleanIfNoneMatchIdempotent(value: string, tag: string)
    ensures var r := CleanIfNoneMatch(value, tag);
            r.Some? ==> r.value != "" && CleanIfNoneMatch(r.value, tag) == r
  {
    var tokens := Split(value, ' ');
    var kept := KeepTagged(tokens, tag);
    if |kept| > 0 {
      CleanIfNoneMatchTokens(value, tag);
      assert forall k :: 0 <= k < |kept| ==> kept[k] in kept;
      KeepTaggedAll(kept, tag);
      assert CarriesTag(kept[0], tag);
      JoinNonEmpty(kept);
    }
  }

  lemma {:induction false} JoinNonEmpty(parts: seq<string>)
    requires |parts| >= 1 && parts[0] != ""
    ensures Join(parts, " ") != ""
  {
    if |parts| > 1 {
      assert |Join(parts, " ")| >= |parts[0]|;
    }
  }

  /** A single token without spaces that carries the tag survives as it is. */
  lemma TaggedTokenSurvives(token: string, tag: string)
    requires ' ' !in token && CarriesTag(token, tag)
    ensures CleanIfNoneMatch(token, tag) == Some(token)
  {
    SplitNoSeparator(token, ' ');
  }

  /** A value none of whose tokens carries the tag is deleted. */
  lemma UntaggedTokenDropped(token: string, tag: string)
    requires ' ' !in token && !CarriesTag(token, tag)
    ensures CleanIfNoneMatch(token, tag) == None
  {
    SplitNoSeparator(token, ' ');
  }

  /**
   * The request headers after the rewrite (lib/compiless.js:33-44 and
   * lib/index.js:60-75). An empty If-None-Match is falsy and stays.
   */
  function CleanConditionalHeaders(h: map<string, string>, tag: string): (r: map<string, string>)
    ensures IfModifiedSince !in r && r.Keys <= h.Keys
  {
    var h1 :=
      if IfNoneMatch in h && h[IfNoneMatch] != "" then
        match CleanIfNoneMatch(h[IfNoneMatch], tag)
        case Some(v) => h[IfNoneMatch := v]
        case None => h - {IfNoneMatch}
      else h;
    h1 - {IfModifiedSince}
  }

  /**
   * If-Modified-Since is gone, every other header but If-None-Match is
   * untouched, and If-None-Match is kept (rewritten) exactly when it was
   * empty or one of its tokens carries the tag.
   */
  lemma CleanConditionalHeadersSpec(h: map<string, string>, tag: string)
    ensures var r := CleanConditionalHeaders(h, tag);
            && IfModifiedSince !in r
            && (forall k :: k != IfNoneMatch && k != IfModifiedSince ==> (k in r <==> k in h))
            && (forall k :: k in r && k != IfNoneMatch ==> r[k] == h[k])
            && (IfNoneMatch in r <==>
                  IfNoneMatch in h &&
                  (h[IfNoneMatch] == "" || exists t :: t in Split(h[IfNoneMatch], ' ') && CarriesTag(t, tag)))
            && (IfNoneMatch in r ==>
                  if h[IfNoneMatch] == "" then r[IfNoneMatch] == ""
                  else Split(r[IfNoneMatch], ' ') == KeepTagged(Split(h[IfNoneMatch], ' '), tag))
  {
    if IfNoneMatch in h && h[IfNoneMatch] != "" {
      var value := h[IfNoneMatch];
      CleanIfNoneMatchTokens(value, tag);
      var tokens := Split(value, ' ');
      if CleanIfNoneMatch(value, tag).None? {
        forall t | t in tokens ensures !CarriesTag(t, tag) {
          var k :| 0 <= k < |tokens| && tokens[k] == t;
        }
      }
    }
  }

  /** Rewriting the headers twice gives the same result as rewriting them once. */
  lemma CleanConditionalHeadersIdempotent(h: map<string, string>, tag: string)
    ensures CleanConditionalHeaders(CleanConditionalHeaders(h, tag), tag) == CleanConditionalHeaders(h, tag)
  {
    var r := CleanConditionalHeaders(h, tag);
    if IfNoneMatch in h && h[IfNoneMatch] != "" {
      CleanIfNoneMatchIdempotent(h[IfNoneMatch], tag);
    }
  }
}
