/**
 * The Sass middleware of lib/index.js: the request gate, the decision taken
 * when the downstream response ends, and `watchImports`, which keeps the
 * table from each imported file to the main files that import it.
 */
module CompileSass {
  import opened Wrappers
  import opened JsText
  import opened ConditionalGet
  import opened RequestMatch
  import opened ErrorText
  import opened Validator
  import opened Http

  /** The options the factory reads. */
  datatype Options = Options(root: Option<string>, strictType: bool)

  /** Why the factory throws. */
  datatype SetupError =
    | OptionsUndefined
      // `options.root` read on `undefined`: a TypeError
    | Thrown(message: string)

  const RootMandatory: string := "express-compile-sass: options.root is mandatory"

  /**
   * The factory's check. Unlike the Less factory it reads `options.root`
   * before defaulting `options`, so a missing options object is a TypeError.
   */
  function Configure(options: Option<Options>): (r: Result<Options, SetupError>)
    ensures r.Ok? <==> options.Some? && Truthy(options.value.root)
    ensures r.Ok? ==> r.value == options.value
    ensures options.None? ==> r == Err(OptionsUndefined)
    ensures options.Some? && !Truthy(options.value.root) ==> r == Err(Thrown(RootMandatory))
  {
    if options.None? then Err(OptionsUndefined)
    else if !Truthy(options.value.root) then Err(Thrown(RootMandatory))
    else Ok(options.value)
  }

  // ---------------------------------------------------------------------
  // Gates
  // ---------------------------------------------------------------------

  const ScssMediaType: string := "text/x-scss"
  const SassMediaType: string := "text/x-sass"
  const OctetStream: string := "application/octet-stream"
  const CssContentType: string := "text/css; charset=UTF-8"

  /** `/\.(?:scss|sass)(?:\?.*)?$/.test(req.url)`. */
  predicate SassUrl(url: string) {
    HasExtension(url, ".scss") || HasExtension(url, ".sass")
  }

  /**
   * `(isCss || !options.strictType) && <the URL test>`: without
   * `strictType` only the URL counts; with it, a request whose Accept
   * header does not name `text/css` is never taken over.
   */
  predicate InterceptsRequest(url: string, accept: Option<string>, strictType: bool)
    ensures !strictType ==> (InterceptsRequest(url, accept, strictType) <==> SassUrl(url))
    ensures strictType ==> (InterceptsRequest(url, accept, strictType) <==> SassUrl(url) && AcceptsCss(accept))
    ensures accept.None? && strictType ==> !InterceptsRequest(url, accept, strictType)
  {
    (AcceptsCss(accept) || !strictType) && SassUrl(url)
  }

  /**
   * The Content-Type test inside the hijack, with the octet-stream
   * fallback: only a present, non-empty Content-Type is processed, and both
   * Sass media types are processed in any letter case.
   */
  predicate ProcessesResponse(url: string, contentType: Option<string>)
    ensures ProcessesResponse(url, contentType) ==> Truthy(contentType)
    ensures contentType.Some? && LowerAscii(contentType.value) == ScssMediaType ==> ProcessesResponse(url, contentType)
    ensures contentType.Some? && LowerAscii(contentType.value) == SassMediaType ==> ProcessesResponse(url, contentType)
  {
    Truthy(contentType) &&
    (MatchesMediaType(contentType.value, ScssMediaType) || MatchesMediaType(contentType.value, SassMediaType) ||
     (SassUrl(url) && contentType.value == OctetStream))
  }

  /** The octet-stream fallback applies exactly to Sass URLs. */
  lemma FallbackOnlyForSassUrls(url: string)
    ensures ProcessesResponse(url, Some(OctetStream)) <==> SassUrl(url)
  {
    FirstLetterDiffers(OctetStream, ScssMediaType);
    FirstLetterDiffers(OctetStream, SassMediaType);
    assert Truthy(Some(OctetStream));
  }


  // ---------------------------------------------------------------------
  // The dependency table
  // ---------------------------------------------------------------------

  predicate NoDuplicates(s: seq<string>) {
    forall i, j :: 0 <= i < j < |s| ==> s[i] != s[j]
  }

  /** The list recorded for `path`, or the empty list when there is none. */
  function Entry(table: map<string, seq<string>>, path: string): seq<string> {
    if path in table then table[path] else []
  }

  /** The list of an imported path after registration: the old one, with `main` appended if it was missing. */
  function Registered(table: map<string, seq<string>>, main: string, path: string): seq<string> {
    var list := Entry(table, path);
    if main in list then list else list + [main]
  }

  /** One step of the `forEach`: make sure `path` has a list and that `main` is on it. */
  function AddImport(table: map<string, seq<string>>, main: string, path: string): map<string, seq<string>> {
    table[path := Registered(table, main, path)]
  }

  /** The table after `watchImports(main, imports)`. */
  function Register(table: map<string, seq<string>>, main: string, imports: seq<string>): (r: map<string, seq<string>>)
    ensures table.Keys <= r.Keys
    decreases |imports|
  {
    if imports == [] then table
    else AddImport(Register(table, main, imports[..|imports| - 1]), main, imports[|imports| - 1])
  }

  /** The paths `watchImports(main, imports)` installs a watch on, in order. */
  function NewWatches(table: map<string, seq<string>>, main: string, imports: seq<string>): seq<string>
    decreases |imports|
  {
    if imports == [] then []
    else
      var init := imports[..|imports| - 1];
      var path := imports[|imports| - 1];
      NewWatches(table, main, init) + (if path in Register(table, main, init) then [] else [path])
  }

  /** An import that is not the last one is in the imports before it. */
  lemma LastSplit(imports: seq<string>, p: string)
    requires imports != []
    ensures p in imports <==> p in imports[..|imports| - 1] || p == imports[|imports| - 1]
  {
    assert imports == imports[..|imports| - 1] + [imports[|imports| - 1]];
  }

  /** Registration adds an entry for every import and removes none. */
  lemma {:induction false} RegisterKeys(table: map<string, seq<string>>, main: string, imports: seq<string>)
    ensures forall p :: p in Register(table, main, imports) <==> p in table || p in imports
    decreases |imports|
  {
    if imports != [] {
      var init := imports[..|imports| - 1];
      RegisterKeys(table, main, init);
      forall p ensures p in Register(table, main, imports) <==> p in table || p in imports {
        LastSplit(imports, p);
      }
    }
  }

  /** Entries of paths that were not imported are untouched. */
  lemma {:induction false} RegisterOthers(table: map<string, seq<string>>, main: string, imports: seq<string>)
    ensures forall p :: p in table && p !in imports ==> Register(table, main, imports)[p] == table[p]
    decreases |imports|
  {
    if imports != [] {
      var init := imports[..|imports| - 1];
      RegisterOthers(table, main, init);
      forall p | p in table && p !in imports ensures Register(table, main, imports)[p] == table[p] {
        LastSplit(imports, p);
      }
    }
  }

  /**
   * Every import has its old list with `main` added once at the end.
   */
  lemma {:induction false} RegisterImported(table: map<string, seq<string>>, main: string, imports: seq<string>)
    ensures forall p :: p in imports ==>
              p in Register(table, main, imports) && Register(table, main, imports)[p] == Registered(table, main, p)
    decreases |imports|
  {
    if imports != [] {
      var init := imports[..|imports| - 1];
      var path := imports[|imports| - 1];
      RegisterImported(table, main, init);
      RegisterKeys(table, main, init);
      RegisterOthers(table, main, init);
      var before := Register(table, main, init);
      forall p | p in imports
        ensures p in Register(table, main, imports) && Register(table, main, imports)[p] == Registered(table, main, p)
      {
        LastSplit(imports, p);
        if p == path && path in init {
          assert main in before[path];
        }
      }
    }
  }

  /**
   * The table in closed form: every import has its old list with `main`
   * added once at the end, and every other entry is as it was.
   */
  lemma RegisterSpec(table: map<string, seq<string>>, main: string, imports: seq<string>)
    ensures var r := Register(table, main, imports);
            && (forall p :: p in r <==> p in table || p in imports)
            && (forall p :: p in imports ==> r[p] == Registered(table, main, p))
            && (forall p :: p in table && p !in imports ==> r[p] == table[p])
  {
    RegisterKeys(table, main, imports);
    RegisterImported(table, main, imports);
    RegisterOthers(table, main, imports);
  }

  /** After registration every import lists `main`. */
  lemma RegisterCovers(table: map<string, seq<string>>, main: string, imports: seq<string>)
    ensures forall p :: p in imports ==> p in Register(table, main, imports) && main in Register(table, main, imports)[p]
  {
    RegisterSpec(table, main, imports);
  }

  /** Lists stay free of duplicates, and recorded mains keep their order. */
  lemma RegisterKeepsLists(table: map<string, seq<string>>, main: string, imports: seq<string>)
    requires forall p :: p in table ==> NoDuplicates(table[p])
    ensures var r := Register(table, main, imports);
            && (forall p :: p in r ==> NoDuplicates(r[p]))
            && (forall p :: p in table ==> p in r && table[p] <= r[p] && |r[p]| <= |table[p]| + 1)
  {
    RegisterSpec(table, main, imports);
    var r := Register(table, main, imports);
    forall p | p in r ensures NoDuplicates(r[p]) {
      if p in imports {
        var list := Entry(table, p);
        if main !in list {
          assert r[p] == list + [main];
          assert forall i :: 0 <= i < |list| ==> r[p][i] == list[i];
        }
      }
    }
  }

  /** Registering the same imports twice changes nothing the second time. */
  lemma RegisterIdempotent(table: map<string, seq<string>>, main: string, imports: seq<string>)
    ensures Register(Register(table, main, imports), main, imports) == Register(table, main, imports)
  {
    var once := Register(table, main, imports);
    RegisterSpec(table, main, imports);
    RegisterSpec(once, main, imports);
    var twice := Register(once, main, imports);
    forall p | p in imports ensures twice[p] == once[p] {
      assert main in once[p];
    }
    assert twice.Keys == once.Keys;
  }

  /** A watch goes on exactly the imports that had no entry, once each. */
  lemma {:induction false} NewWatchesSpec(table: map<string, seq<string>>, main: string, imports: seq<string>)
    ensures var w := NewWatches(table, main, imports);
            && NoDuplicates(w)
            && (forall p :: p in w <==> p in imports && p !in table)
    decreases |imports|
  {
    if imports != [] {
      var init := imports[..|imports| - 1];
      var path := imports[|imports| - 1];
      NewWatchesSpec(table, main, init);
      RegisterSpec(table, main, init);
      assert forall p :: p in imports <==> p in init || p == path;
      var w0 := NewWatches(table, main, init);
      var w := NewWatches(table, main, imports);
      if path !in Register(table, main, init) {
        assert w == w0 + [path];
        assert path !in w0;
      }
    }
  }

  /**
   * The middleware instance: its options and the closure-owned
   * `sassFileMap`, with the paths `fs.watch` was called on, in order.
   */
  class Middleware {
    const root: string
    const strictType: bool
    var sassFileMap: map<string, seq<string>>
    var watched: seq<string>

    /** Lists have no duplicates, and exactly the paths with an entry are watched, once each. */
    predicate Valid()
      reads this
    {
      && (forall p :: p in sassFileMap ==> NoDuplicates(sassFileMap[p]))
      && NoDuplicates(watched)
      && (forall p :: p in watched ==> p in sassFileMap)
      && (forall p :: p in sassFileMap ==> p in watched)
    }

    constructor (root: string, strictType: bool)
      requires root != ""
      ensures Valid()
      ensures this.root == root && this.strictType == strictType
      ensures sassFileMap == map[] && watched == []
    {
      this.root := root;
      this.strictType := strictType;
      sassFileMap := map[];
      watched := [];
    }

    /** `watchImports(main, imports)` of lib/index.js:20-36. */
    method WatchImports(main: string, imports: seq<string>)
      requires Valid()
      modifies this
      ensures Valid()
      ensures sassFileMap == Register(old(sassFileMap), main, imports)
      ensures watched == old(watched) + NewWatches(old(sassFileMap), main, imports)
      ensures forall p :: p in imports ==> p in sassFileMap && main in sassFileMap[p]
    {
      var i := 0;
      while i < |imports|
        invariant 0 <= i <= |imports|
        invariant sassFileMap == Register(old(sassFileMap), main, imports[..i])
        invariant watched == old(watched) + NewWatches(old(sassFileMap), main, imports[..i])
      {
        var path := imports[i];
        assert imports[..i + 1][..i] == imports[..i];
        ghost var before := sassFileMap;
        if path !in sassFileMap {
          sassFileMap := sassFileMap[path := []];
          watched := watched + [path];
        }
        if main !in sassFileMap[path] {
          sassFileMap := sassFileMap[path := sassFileMap[path] + [main]];
        }
        assert sassFileMap[path] == Registered(before, main, path);
        assert sassFileMap == AddImport(before, main, path);
        i := i + 1;
      }
      assert imports[..i] == imports;
      RegisterKeepsWatches(old(sassFileMap), old(watched), main, imports);
    }

    /**
     * The `fs.watch` callback for `path` (lib/index.js:25-29): the main
     * files it touches are the ones listed for the path when it fires.
     */
    method FileChanged(path: string) returns (touched: seq<string>)
      requires Valid() && path in watched
      ensures path in sassFileMap && touched == sassFileMap[path]
      ensures NoDuplicates(touched)
    {
      touched := sassFileMap[path];
    }
  }

  /** Appending watches for paths that had no entry keeps the watch list duplicate-free. */
  lemma WatchedStaysFresh(watched: seq<string>, added: seq<string>, table: map<string, seq<string>>)
    requires NoDuplicates(watched) && NoDuplicates(added)
    requires forall p :: p in watched <==> p in table
    requires forall p :: p in added ==> p !in table
    ensures NoDuplicates(watched + added)
  {
    var all := watched + added;
    forall i, j | 0 <= i < j < |all| ensures all[i] != all[j] {
      if i < |watched| && j >= |watched| {
        assert all[i] in watched && all[j] in added;
      }
    }
  }
  /** Registration with its new watches keeps lists and watches as `Middleware.Valid` wants them. */
  lemma RegisterKeepsWatches(table: map<string, seq<string>>, watched: seq<string>, main: string, imports: seq<string>)
    requires forall p :: p in table ==> NoDuplicates(table[p])
    requires NoDuplicates(watched) && forall p :: p in watched <==> p in table
    ensures var r, w := Register(table, main, imports), watched + NewWatches(table, main, imports);
            && (forall p :: p in r ==> NoDuplicates(r[p]))
            && NoDuplicates(w)
            && (forall p :: p in w <==> p in r)
            && (forall p :: p in imports ==> p in r && main in r[p])
  {
    RegisterCovers(table, main, imports);
    RegisterKeepsLists(table, main, imports);
    RegisterSpec(table, main, imports);
    NewWatchesSpec(table, main, imports);
    WatchedStaysFresh(watched, NewWatches(table, main, imports), table);
  }

  // ---------------------------------------------------------------------
  // Responses
  // ---------------------------------------------------------------------

  /** What `sass.render` reports: the error text, or the CSS and `stats.includedFiles`. */
  datatype SassRender =
    | RenderFailed(message: string)
    | Rendered(css: string, includedFiles: seq<string>)

  datatype Environment = Environment(
    decode: seq<Byte> -> string,           // Buffer#toString('utf-8')
    render: string -> SassRender,          // sass.render
    md5: string -> Md5Hex,                 // crypto MD5, hexadecimal
    cssError: string -> string,            // the csserror module
    joinPath: (string, string) -> string)  // Path.join

  /** The render result the end handler works on. */
  function RenderOf(down: Downstream, env: Environment): SassRender {
    env.render(env.decode(ConcatChunks(down.chunks)))
  }

  /** `sendErrorResponse(err)`. */
  function ErrorResponse(originalUrl: string, message: string, env: Environment): (r: Action)
    ensures r.SendError? && r.contentType == CssContentType
  {
    SendError(CssContentType, env.cssError(SassErrorMessage(originalUrl, message)))
  }

  /**
   * The successful response as lib/index.js:112-116 sends it: the CSS, its
   * UTF-8 length, and the unquoted validator, which the If-None-Match
   * filter deletes when a client echoes it.
   */
  function CssResponse(cssText: string, env: Environment): (r: Action)
    ensures r.SendCss? && r.contentType == CssContentType && r.body == cssText
    ensures r.contentLength == Utf8Length(cssText)
    ensures r.etag == Some(SassETagAsWritten(cssText, env.md5))
    ensures CleanIfNoneMatch(r.etag.value, SassTag) == None
  {
    SassETagAsWrittenIsFiltered(cssText, env.md5);
    SendCss(CssContentType, Some(SassETagAsWritten(cssText, env.md5)), Utf8Length(cssText), cssText)
  }

  /** The corrected response: the quoted validator, which survives the filter when echoed. */
  function CorrectedCssResponse(cssText: string, env: Environment): (r: Action)
    ensures r.SendCss? && r.contentType == CssContentType && r.body == cssText
    ensures r.contentLength == Utf8Length(cssText)
    ensures r.etag == Some(SassETag(cssText, env.md5))
    ensures CleanIfNoneMatch(r.etag.value, SassTag) == r.etag
  {
    SassETagSurvivesFilter(cssText, env.md5);
    SendCss(CssContentType, Some(SassETag(cssText, env.md5)), Utf8Length(cssText), cssText)
  }

  /**
   * What the hijack callback ends in for the captured downstream response.
   * A response of another type is left alone, and only such a response; an
   * empty capture re-sends the current status, and only an empty capture.
   */
  function Respond(url: string, originalUrl: string, down: Downstream, env: Environment): (r: Action)
    ensures r.Unhijack? <==> !ProcessesResponse(url, down.contentType)
    ensures r.ResendStatus? <==> ProcessesResponse(url, down.contentType) && |down.chunks| == 0
    ensures r.ResendStatus? ==> r.status == down.statusCode
  {
    if !ProcessesResponse(url, down.contentType) then Unhijack
    else if |down.chunks| == 0 then ResendStatus(down.statusCode)
    else
      match RenderOf(down, env)
      case RenderFailed(message) => ErrorResponse(originalUrl, message, env)
      case Rendered(cssText, _) => CssResponse(cssText, env)
  }

  /** The imports `watchImports` is called with: only after a successful render. */
  function WatchedImports(url: string, down: Downstream, env: Environment): Option<seq<string>> {
    if ProcessesResponse(url, down.contentType) && |down.chunks| > 0 && RenderOf(down, env).Rendered?
    then Some(RenderOf(down, env).includedFiles)
    else None
  }

  /**
   * Past the gates: the error stylesheet exactly for a failed render, and
   * otherwise the CSS with its UTF-8 length and the unquoted validator that
   * the If-None-Match filter deletes when a client echoes it.
   */
  lemma RespondSpec(url: string, originalUrl: string, down: Downstream, env: Environment)
    ensures var r := Respond(url, originalUrl, down, env);
            && (r.SendError? <==> ProcessesResponse(url, down.contentType) && |down.chunks| > 0 &&
                                  RenderOf(down, env).RenderFailed?)
            && (r.SendError? ==> r.contentType == CssContentType &&
                                 r.body == env.cssError(SassErrorMessage(originalUrl, RenderOf(down, env).message)))
            && (r.SendCss? ==> && RenderOf(down, env).Rendered?
                               && r.body == RenderOf(down, env).css
                               && r.contentLength == Utf8Length(r.body)
                               && r.etag == Some(SassETagAsWritten(r.body, env.md5))
                               && CleanIfNoneMatch(r.etag.value, SassTag) == None)
  {
    var r := Respond(url, originalUrl, down, env);
    if ProcessesResponse(url, down.contentType) && |down.chunks| > 0 {
      match RenderOf(down, env)
      case RenderFailed(message) =>
        assert r == ErrorResponse(originalUrl, message, env);
      case Rendered(cssText, _) =>
        assert r == CssResponse(cssText, env);
    }
  }

  /**
   * The middleware on one request: a request it takes over has its
   * conditional headers rewritten, gets the response `Respond` decides, and
   * after a successful render registers the included files for the main
   * file `Path.join(root, url)`; every other request passes through.
   */
  method Handle(m: Middleware, req: Request, down: Downstream, env: Environment) returns (action: Action)
    requires m.Valid()
    modifies m, req
    ensures m.Valid()
    ensures !InterceptsRequest(req.url, Lookup(old(req.headers), "accept"), m.strictType) ==>
              action == PassThrough && req.headers == old(req.headers) &&
              m.sassFileMap == old(m.sassFileMap) && m.watched == old(m.watched)
    ensures InterceptsRequest(req.url, Lookup(old(req.headers), "accept"), m.strictType) ==>
              && req.headers == CleanConditionalHeaders(old(req.headers), SassTag)
              && action == Respond(req.url, req.originalUrl, down, env)
              && m.sassFileMap == (match WatchedImports(req.url, down, env)
                                   case None => old(m.sassFileMap)
                                   case Some(imports) => Register(old(m.sassFileMap), env.joinPath(m.root, req.url), imports))
              && m.watched == old(m.watched) + (match WatchedImports(req.url, down, env)
                                               case None => []
                                               case Some(imports) => NewWatches(old(m.sassFileMap), env.joinPath(m.root, req.url), imports))
  {
    var isCss := AcceptsCss(Lookup(req.headers, "accept"));
    if !((isCss || !m.strictType) && SassUrl(req.url)) {
      return PassThrough;
    }
    req.RewriteConditionalHeaders(SassTag);
    action := Respond(req.url, req.originalUrl, down, env);
    var imports := WatchedImports(req.url, down, env);
    if imports.Some? {
      m.WatchImports(env.joinPath(m.root, req.url), imports.value);
    } else {
      assert m.watched == old(m.watched) + [];
    }
  }
}
