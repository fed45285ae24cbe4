/**
 * The Less middleware of lib/compiless.js: which requests and responses it
 * takes over, and what it sends once the downstream response has ended.
 */
module Compiless {
  import opened Wrappers
  import opened JsText
  import opened ConditionalGet
  import opened RequestMatch
  import opened ErrorText
  import opened CssString
  import opened CssSyntax
  import opened Validator
  import opened Http

  /** The options the factory reads. */
  datatype Options = Options(root: Option<string>)

  const RootMandatory: string := "options.root is mandatory"

  /** The factory's check: a missing options object and a missing root are both refused. */
  function Configure(options: Option<Options>): (r: Result<string, string>)
    ensures r.Ok? <==> options.Some? && Truthy(options.value.root)
    ensures r.Ok? ==> r.value == options.value.root.value
    ensures r.Err? ==> r.error == RootMandatory
  {
    if options.None? || !Truthy(options.value.root) then Err(RootMandatory)
    else Ok(options.value.root.value)
  }

  // ---------------------------------------------------------------------
  // Gates
  // ---------------------------------------------------------------------

  const LessExtension: string := ".less"
  const LessMediaType: string := "text/less"
  const OctetStream: string := "application/octet-stream"
  const CssMediaType: string := "text/css"

  /** `/\.less(?:\?.*)?$/.test(req.url)`. */
  predicate InterceptsUrl(url: string) {
    HasExtension(url, LessExtension)
  }

  /**
   * The Content-Type test inside the hijack, with the octet-stream
   * fallback: only a present, non-empty Content-Type is processed, and
   * `text/less` is processed in any letter case.
   */
  predicate ProcessesResponse(url: string, contentType: Option<string>)
    ensures ProcessesResponse(url, contentType) ==> Truthy(contentType)
    ensures contentType.Some? && LowerAscii(contentType.value) == LessMediaType ==> ProcessesResponse(url, contentType)
  {
    Truthy(contentType) &&
    (MatchesMediaType(contentType.value, LessMediaType) ||
     (InterceptsUrl(url) && contentType.value == OctetStream))
  }

  /** `text/less` with a charset parameter is processed. */
  lemma CharsetLessProcessed(url: string, spaces: string, charset: string)
    requires forall j :: 0 <= j < |spaces| ==> spaces[j] == ' '
    requires |charset| > 0 && forall j :: 0 <= j < |charset| ==> IsCharsetChar(charset[j])
    ensures ProcessesResponse(url, Some(LessMediaType + ";" + spaces + "charset=" + charset))
  {
    LowerAsciiNoUpper(LessMediaType);
    CharsetMediaTypeMatches(LessMediaType, spaces, charset);
  }

  /** The octet-stream fallback applies exactly to `.less` URLs. */
  lemma FallbackOnlyForLessUrls(url: string)
    ensures ProcessesResponse(url, Some(OctetStream)) <==> InterceptsUrl(url)
  {
    FirstLetterDiffers(OctetStream, LessMediaType);
  }

  /** A response without Content-Type, or a CSS one, is left alone. */
  lemma CssNotProcessed(url: string)
    ensures !ProcessesResponse(url, None) && !ProcessesResponse(url, Some(CssMediaType))
  {
    assert !MatchesMediaType(CssMediaType, LessMediaType) by {
      assert |LowerAscii(CssMediaType)| < |LessMediaType|;
    }
  }

  // ---------------------------------------------------------------------
  // The collaborators the end handler calls
  // ---------------------------------------------------------------------

  /** What `parser.parse` hands back: an error, or the imports and `root.toCSS()`. */
  datatype LessParse =
    | ParseFailed(error: ErrorValue)
    | Parsed(imports: seq<string>, rootCss: Result<string, ErrorValue>)

  datatype Environment = Environment(
    decode: seq<Byte> -> string,                    // Buffer#toString('utf-8')
    parse: string -> LessParse,                     // less.Parser#parse and root.toCSS()
    stat: string -> Result<FileStat, ErrorValue>,   // fs.stat
    md5: string -> Md5Hex,                          // crypto MD5, hexadecimal
    includePath: (string, string) -> string)        // Path.relative(baseDir of the URL, file)

  /** The first import whose `fs.stat` fails, in list order. */
  function FirstStatError(names: seq<string>, stat: string -> Result<FileStat, ErrorValue>): (r: Option<ErrorValue>)
    ensures r.None? <==> forall k :: 0 <= k < |names| ==> stat(names[k]).Ok?
    ensures r.Some? ==> exists k :: 0 <= k < |names| && stat(names[k]) == Err(r.value)
  {
    if names == [] then None
    else if stat(names[0]).Err? then Some(stat(names[0]).error)
    else
      var r := FirstStatError(names[1..], stat);
      assert forall k :: 1 <= k < |names| ==> names[k] == names[1..][k - 1];
      if r.Some? then
        var k :| 0 <= k < |names[1..]| && stat(names[1..][k]) == Err(r.value);
        assert stat(names[k + 1]) == Err(r.value);
        r
      else r
  }

  /** `statsByFileName` once every stat has succeeded. */
  function StatsOf(names: seq<string>, stat: string -> Result<FileStat, ErrorValue>): (r: map<string, FileStat>)
    requires forall k :: 0 <= k < |names| ==> stat(names[k]).Ok?
    ensures forall k :: 0 <= k < |names| ==> names[k] in r && r[names[k]] == stat(names[k]).value
  {
    map n | n in names && stat(n).Ok? :: stat(n).value
  }

  // ---------------------------------------------------------------------
  // Responses
  // ---------------------------------------------------------------------

  const ErrorStylePrefix: string :=
    "body * {display: none !important;} body:before {line-height: 1.5; display: block; " +
    "z-index: 99999999; white-space: pre; font-family: 'Courier New', monospace; " +
    "font-size: 24px; color: black; margin: 10px; padding: 10px; " +
    "border: 4px dashed red; margin-bottom: 10px; content: "

  /**
   * The error stylesheet that hides the page and shows the message: the
   * fixed rules, then the message as `createCssStringLiteral` writes it.
   */
  function ErrorStylesheet(message: string): (r: string)
    ensures |r| == |ErrorStylePrefix| + |CreateCssStringLiteral(message)| + 2
    ensures StartsWith(r, ErrorStylePrefix) && EndsWith(r, "}\n")
    ensures r[|ErrorStylePrefix|..|r| - 2] == CreateCssStringLiteral(message)
  {
    var r := ErrorStylePrefix + CreateCssStringLiteral(message) + "}\n";
    assert r[..|ErrorStylePrefix|] == ErrorStylePrefix;
    assert r[|r| - 2..] == "}\n";
    assert r[|ErrorStylePrefix|..|r| - 2] == CreateCssStringLiteral(message);
    r
  }

  /** The text the browser shows for the stylesheet's `content` string. */
  function ShownMessage(sheet: string): Option<string>
    requires |sheet| >= |ErrorStylePrefix| + 2
  {
    DisplayedText(sheet[|ErrorStylePrefix|..|sheet| - 2])
  }

  /**
   * The stylesheet shows the message with every space after an escaped
   * character dropped, so it shows the message intact exactly when the
   * message has no NUL and no escaped character followed by a space.
   */
  lemma ErrorStylesheetShowsMessage(message: string)
    ensures var shown := ShownMessage(ErrorStylesheet(message));
            && shown == Some(ShownAsWritten(message))
            && (shown == Some(message) <==> '\U{0000}' !in message && NoSpaceAfterEscape(message))
  {
    LiteralDisplay(message);
    LiteralShownWhenNoSpaceAfterEscape(message);
  }

  /**
   * A Less error whose formatted text starts with a space (an indented
   * extract line) is not shown intact: the space follows the escaped
   * newline of the header.
   */
  lemma ErrorStylesheetDropsIndent(originalUrl: string, err: ErrorValue)
    requires StartsWith(FormatError(err), " ")
    ensures var message := CompilessErrorMessage(originalUrl, err);
            ShownMessage(ErrorStylesheet(message)) != Some(message)
  {
    var head := "express-compiless: Error compiling " + originalUrl + ":\n";
    var message := CompilessErrorMessage(originalUrl, err);
    var k := |head| - 1;
    assert message[k] == message[..|head|][k] == '\n';
    assert message[k + 1] == message[|message| - |FormatError(err)|..][0] == FormatError(err)[..1][0] == ' ';
    assert NeedsEscape(message[k]) && message[k + 1] == ' ';
    assert !NoSpaceAfterEscape(message);
    ErrorStylesheetShowsMessage(message);
  }

  /** The corrected stylesheet: the message as the terminated literal writes it. */
  function CorrectedErrorStylesheet(message: string): (r: string)
    ensures |r| == |ErrorStylePrefix| + |CreateTerminatedCssStringLiteral(message)| + 2
    ensures StartsWith(r, ErrorStylePrefix) && EndsWith(r, "}\n")
    ensures r[|ErrorStylePrefix|..|r| - 2] == CreateTerminatedCssStringLiteral(message)
  {
    var r := ErrorStylePrefix + CreateTerminatedCssStringLiteral(message) + "}\n";
    assert r[..|ErrorStylePrefix|] == ErrorStylePrefix;
    assert r[|r| - 2..] == "}\n";
    assert r[|ErrorStylePrefix|..|r| - 2] == CreateTerminatedCssStringLiteral(message);
    r
  }

  /** The corrected stylesheet shows every message without NUL exactly. */
  lemma CorrectedErrorStylesheetShowsMessage(message: string)
    requires '\U{0000}' !in message
    ensures ShownMessage(CorrectedErrorStylesheet(message)) == Some(message)
  {
    TerminatedLiteralShown(message);
  }

  /** `sendErrorResponse(err)`. */
  function ErrorResponse(originalUrl: string, err: ErrorValue): (r: Action)
    ensures r.SendError? && r.contentType == CssMediaType
  {
    SendError(CssMediaType, ErrorStylesheet(CompilessErrorMessage(originalUrl, err)))
  }

  /** The rule that makes the browser's developer tools list an imported file. */
  function IncludeRule(path: string): string {
    ".compilessinclude {background-image: url(" + path + "); display: none;}\n"
  }

  /** `importedFileNames.map(...).join("")`. */
  function IncludeRules(url: string, names: seq<string>, includePath: (string, string) -> string): (r: string)
    ensures r == [] <==> names == []
  {
    if names == [] then "" else IncludeRule(includePath(url, names[0])) + IncludeRules(url, names[1..], includePath)
  }

  /** The rules of a joined list are the joined rules, in list order. */
  lemma {:induction false} IncludeRulesAppend(url: string, a: seq<string>, b: seq<string>,
                                              includePath: (string, string) -> string)
    ensures IncludeRules(url, a + b, includePath) == IncludeRules(url, a, includePath) + IncludeRules(url, b, includePath)
  {
    if a == [] {
      assert a + b == b;
    } else {
      assert (a + b)[0] == a[0] && (a + b)[1..] == a[1..] + b;
      IncludeRulesAppend(url, a[1..], b, includePath);
    }
  }

  /** The import list after the ETag code: sorted in place only when that code sorted it. */
  function IncludeOrder(names: seq<string>, etagBuilt: bool): (r: seq<string>)
    ensures multiset(r) == multiset(names)
    ensures etagBuilt && |names| > 0 ==> Sorted(r)
    ensures !(etagBuilt && |names| > 0) ==> r == names
  {
    if etagBuilt && |names| > 0 then SortStrings(names) else names
  }

  /** The new ETag, built only when the downstream response had one. */
  function NewETag(downstreamETag: Option<string>, names: seq<string>, stats: map<string, FileStat>,
                   md5: string -> Md5Hex): Option<string>
    requires forall k :: 0 <= k < |names| ==> names[k] in stats
  {
    if Truthy(downstreamETag) then Some(CompilessETag(downstreamETag.value, names, stats, md5)) else None
  }

  /** The stylesheet body: the include rules before the root CSS. */
  function CssBody(url: string, names: seq<string>, etagBuilt: bool, rootCss: string,
                   includePath: (string, string) -> string): string {
    IncludeRules(url, IncludeOrder(names, etagBuilt), includePath) + rootCss
  }

  /**
   * After every import was statted, given the ETag the source has just set
   * (None when it set none): the 304 test, `toCSS`, and the stylesheet.
   */
  function Compiled(url: string, originalUrl: string, ifNoneMatch: Option<string>, downstreamETag: Option<string>,
                    newETag: Option<string>, names: seq<string>, rootCss: Result<string, ErrorValue>,
                    env: Environment): (r: Action)
    ensures r.NotModified? || r.SendError? || r.SendCss?
  {
    if newETag.Some? && Truthy(ifNoneMatch) && Contains(ifNoneMatch.value, newETag.value) then
      NotModified(newETag.value)
    else if rootCss.Err? then
      ErrorResponse(originalUrl, rootCss.error)
    else
      var body := CssBody(url, names, newETag.Some?, rootCss.value, env.includePath);
      SendCss(CssMediaType, if newETag.Some? then newETag else downstreamETag, Utf8Length(body), body)
  }

  /** The parse result the end handler works on. */
  function ParseOf(down: Downstream, env: Environment): LessParse {
    env.parse(env.decode(ConcatChunks(down.chunks)))
  }

  /** After parsing: the stat loop, then `Compiled`. */
  function Process(url: string, originalUrl: string, ifNoneMatch: Option<string>, downstreamETag: Option<string>,
                   parsed: LessParse, env: Environment): (r: Action)
    ensures r.NotModified? || r.SendError? || r.SendCss?
  {
    match parsed
    case ParseFailed(e) => ErrorResponse(originalUrl, e)
    case Parsed(names, rootCss) =>
      match FirstStatError(names, env.stat)
      case Some(e) => ErrorResponse(originalUrl, e)
      case None =>
        var newETag := NewETag(downstreamETag, names, StatsOf(names, env.stat), env.md5);
        Compiled(url, originalUrl, ifNoneMatch, downstreamETag, newETag, names, rootCss, env)
  }

  /**
   * What the hijack callback ends in, given the original If-None-Match
   * value and the captured downstream response. A response of another type
   * is left alone, and only such a response; an empty capture re-sends the
   * current status, and only an empty capture.
   */
  function Respond(url: string, originalUrl: string, ifNoneMatch: Option<string>, down: Downstream,
                   env: Environment): (r: Action)
    ensures r.Unhijack? <==> !ProcessesResponse(url, down.contentType)
    ensures r.ResendStatus? <==> ProcessesResponse(url, down.contentType) && |down.chunks| == 0
    ensures r.ResendStatus? ==> r.status == down.statusCode
  {
    if !ProcessesResponse(url, down.contentType) then Unhijack
    else if |down.chunks| == 0 then ResendStatus(down.statusCode)
    else
      var a := Process(url, originalUrl, ifNoneMatch, down.etag, ParseOf(down, env), env);
      assert a.NotModified? || a.SendError? || a.SendCss?;
      a
  }

  /** The parse succeeded and every import could be statted. */
  predicate Statted(down: Downstream, env: Environment) {
    ParseOf(down, env).Parsed? && FirstStatError(ParseOf(down, env).imports, env.stat).None?
  }

  /** The imports' stats once `Statted` holds. */
  function StatsAfter(down: Downstream, env: Environment): (r: map<string, FileStat>)
    requires Statted(down, env)
    ensures forall k :: 0 <= k < |ParseOf(down, env).imports| ==> ParseOf(down, env).imports[k] in r
  {
    StatsOf(ParseOf(down, env).imports, env.stat)
  }

  // ---------------------------------------------------------------------
  // Properties of the decision
  // ---------------------------------------------------------------------

  /** Past the two gates, `Respond` is `Compiled` once everything was statted. */
  lemma RespondCompiled(url: string, originalUrl: string, ifNoneMatch: Option<string>, down: Downstream, env: Environment)
    requires ProcessesResponse(url, down.contentType) && |down.chunks| > 0 && Statted(down, env)
    ensures var p := ParseOf(down, env);
            Respond(url, originalUrl, ifNoneMatch, down, env) ==
            Compiled(url, originalUrl, ifNoneMatch, down.etag,
                     NewETag(down.etag, p.imports, StatsAfter(down, env), env.md5), p.imports, p.rootCss, env)
  {
    var p := ParseOf(down, env);
    assert Respond(url, originalUrl, ifNoneMatch, down, env) == Process(url, originalUrl, ifNoneMatch, down.etag, p, env);
  }

  /** Past the two gates, a failed parse or stat is reported. */
  lemma RespondFailed(url: string, originalUrl: string, ifNoneMatch: Option<string>, down: Downstream, env: Environment)
    requires ProcessesResponse(url, down.contentType) && |down.chunks| > 0 && !Statted(down, env)
    ensures var p := ParseOf(down, env);
            Respond(url, originalUrl, ifNoneMatch, down, env) ==
            ErrorResponse(originalUrl, if p.ParseFailed? then p.error else FirstStatError(p.imports, env.stat).value)
  {
    var p := ParseOf(down, env);
    assert Respond(url, originalUrl, ifNoneMatch, down, env) == Process(url, originalUrl, ifNoneMatch, down.etag, p, env);
  }

  /**
   * 304 exactly when the downstream response had an ETag and the ORIGINAL
   * If-None-Match contains the new one; the 304 carries that ETag.
   */
  lemma NotModifiedExactly(url: string, originalUrl: string, ifNoneMatch: Option<string>, down: Downstream, env: Environment)
    ensures var r := Respond(url, originalUrl, ifNoneMatch, down, env);
            r.NotModified? <==>
              && ProcessesResponse(url, down.contentType) && |down.chunks| > 0 && Statted(down, env)
              && Truthy(down.etag) && Truthy(ifNoneMatch)
              && Contains(ifNoneMatch.value, CompilessETag(down.etag.value, ParseOf(down, env).imports, StatsAfter(down, env), env.md5))
    ensures var r := Respond(url, originalUrl, ifNoneMatch, down, env);
            r.NotModified? ==>
              r.validator == CompilessETag(down.etag.value, ParseOf(down, env).imports, StatsAfter(down, env), env.md5)
  {
    if ProcessesResponse(url, down.contentType) && |down.chunks| > 0 {
      if Statted(down, env) {
        RespondCompiled(url, originalUrl, ifNoneMatch, down, env);
      } else {
        RespondFailed(url, originalUrl, ifNoneMatch, down, env);
      }
    }
  }

  /** A client that sends back the ETag it was given gets a 304. */
  lemma RevalidationHits(url: string, originalUrl: string, down: Downstream, env: Environment)
    requires ProcessesResponse(url, down.contentType) && |down.chunks| > 0 && Statted(down, env)
    requires Truthy(down.etag)
    ensures var e := CompilessETag(down.etag.value, ParseOf(down, env).imports, StatsAfter(down, env), env.md5);
            Respond(url, originalUrl, Some(e), down, env) == NotModified(e)
  {
    var e := CompilessETag(down.etag.value, ParseOf(down, env).imports, StatsAfter(down, env), env.md5);
    assert e[0] == '"';
    ContainsSelf(e);
    RespondCompiled(url, originalUrl, Some(e), down, env);
  }

  /** What `Compiled` sends when it sends the stylesheet. */
  lemma CompiledSendCss(url: string, originalUrl: string, ifNoneMatch: Option<string>, downstreamETag: Option<string>,
                        newETag: Option<string>, names: seq<string>, rootCss: Result<string, ErrorValue>,
                        env: Environment)
    ensures var r := Compiled(url, originalUrl, ifNoneMatch, downstreamETag, newETag, names, rootCss, env);
            r.SendCss? ==>
              && rootCss.Ok? && r.contentType == CssMediaType
              && r.body == CssBody(url, names, newETag.Some?, rootCss.value, env.includePath)
              && r.contentLength == Utf8Length(r.body)
              && r.etag == (if newETag.Some? then newETag else downstreamETag)
  {
  }

  /**
   * The stylesheet: `text/css`, one include rule per import (sorted when
   * the ETag code sorted them) before the root CSS, Content-Length its UTF-8
   * length, and the new ETag exactly when the downstream response had one.
   */
  lemma SendCssShape(url: string, originalUrl: string, ifNoneMatch: Option<string>, down: Downstream, env: Environment)
    ensures var r := Respond(url, originalUrl, ifNoneMatch, down, env);
            r.SendCss? ==>
              && ProcessesResponse(url, down.contentType) && |down.chunks| > 0 && Statted(down, env)
              && var p := ParseOf(down, env);
                 && p.rootCss.Ok?
                 && r.contentType == CssMediaType
                 && r.contentLength == Utf8Length(r.body)
                 && (exists order :: multiset(order) == multiset(p.imports) &&
                       r.body == IncludeRules(url, order, env.includePath) + p.rootCss.value)
                 && r.etag == (if Truthy(down.etag) then Some(CompilessETag(down.etag.value, p.imports, StatsAfter(down, env), env.md5))
                               else down.etag)
  {
    var r := Respond(url, originalUrl, ifNoneMatch, down, env);
    if ProcessesResponse(url, down.contentType) && |down.chunks| > 0 {
      if Statted(down, env) {
        RespondCompiled(url, originalUrl, ifNoneMatch, down, env);
        var p := ParseOf(down, env);
        var newETag := NewETag(down.etag, p.imports, StatsAfter(down, env), env.md5);
        CompiledSendCss(url, originalUrl, ifNoneMatch, down.etag, newETag, p.imports, p.rootCss, env);
        if r.SendCss? {
          var order := IncludeOrder(p.imports, Truthy(down.etag));
          assert r.body == IncludeRules(url, order, env.includePath) + p.rootCss.value;
        }
      } else {
        RespondFailed(url, originalUrl, ifNoneMatch, down, env);
      }
    }
  }

  /**
   * An error stylesheet is `text/css` and shows a compile or stat error;
   * a failed parse or stat always ends in one.
   */
  lemma SendErrorShape(url: string, originalUrl: string, ifNoneMatch: Option<string>, down: Downstream, env: Environment)
    ensures var r := Respond(url, originalUrl, ifNoneMatch, down, env);
            r.SendError? ==>
              && r.contentType == CssMediaType
              && exists e :: r.body == ErrorStylesheet(CompilessErrorMessage(originalUrl, e))
    ensures var r := Respond(url, originalUrl, ifNoneMatch, down, env);
            ProcessesResponse(url, down.contentType) && |down.chunks| > 0 && !Statted(down, env) ==> r.SendError?
  {
    var r := Respond(url, originalUrl, ifNoneMatch, down, env);
    if ProcessesResponse(url, down.contentType) && |down.chunks| > 0 {
      if Statted(down, env) {
        RespondCompiled(url, originalUrl, ifNoneMatch, down, env);
        if r.SendError? {
          var e := ParseOf(down, env).rootCss.error;
          assert r == ErrorResponse(originalUrl, e);
          assert r.body == ErrorStylesheet(CompilessErrorMessage(originalUrl, e));
        }
      } else {
        RespondFailed(url, originalUrl, ifNoneMatch, down, env);
        var p := ParseOf(down, env);
        var e := if p.ParseFailed? then p.error else FirstStatError(p.imports, env.stat).value;
        assert r.body == ErrorStylesheet(CompilessErrorMessage(originalUrl, e));
      }
    }
  }

  // ---------------------------------------------------------------------
  // The middleware, step by step
  // ---------------------------------------------------------------------

  /**
   * The `end` handler of lib/compiless.js:74-127, as the source runs it:
   * the stat loop, the ETag header, the in-place sort and the body.
   */
  method Finish(url: string, originalUrl: string, ifNoneMatch: Option<string>, down: Downstream, env: Environment)
    returns (action: Action)
    requires ProcessesResponse(url, down.contentType)
    ensures action == Respond(url, originalUrl, ifNoneMatch, down, env)
  {
    if |down.chunks| == 0 {
      return ResendStatus(down.statusCode);
    }
    var parsed := env.parse(env.decode(ConcatChunks(down.chunks)));
    if parsed.ParseFailed? {
      RespondFailed(url, originalUrl, ifNoneMatch, down, env);
      return ErrorResponse(originalUrl, parsed.error);
    }
    var importedFileNames := parsed.imports;
    var statError, statsByFileName := StatAll(importedFileNames, env.stat);
    if statError.Some? {
      RespondFailed(url, originalUrl, ifNoneMatch, down, env);
      return ErrorResponse(originalUrl, statError.value);
    }
    RespondCompiled(url, originalUrl, ifNoneMatch, down, env);
    var etagHeader := down.etag;
    if Truthy(etagHeader) {
      var newETag := BuildCompilessETag(etagHeader.value, importedFileNames, statsByFileName, env.md5);
      etagHeader := Some(newETag);
      if |importedFileNames| > 0 {
        importedFileNames := SortStrings(importedFileNames);
      }
      if Truthy(ifNoneMatch) && IndexOf(ifNoneMatch.value, newETag) != -1 {
        return NotModified(newETag);
      }
    }
    if parsed.rootCss.Err? {
      return ErrorResponse(originalUrl, parsed.rootCss.error);
    }
    var cssText := IncludeRules(url, importedFileNames, env.includePath) + parsed.rootCss.value;
    action := SendCss(CssMediaType, etagHeader, Utf8Length(cssText), cssText);
  }

  /**
   * The `fs.stat` calls of lib/compiless.js:87-92, one after the other:
   * the first failure in list order, or the stats of every import.
   */
  method StatAll(importedFileNames: seq<string>, stat: string -> Result<FileStat, ErrorValue>)
    returns (statError: Option<ErrorValue>, statsByFileName: map<string, FileStat>)
    ensures statError == FirstStatError(importedFileNames, stat)
    ensures statError.None? ==> statsByFileName == StatsOf(importedFileNames, stat)
  {
    statsByFileName := map[];
    var i := 0;
    while i < |importedFileNames|
      invariant 0 <= i <= |importedFileNames|
      invariant forall k :: 0 <= k < i ==> stat(importedFileNames[k]).Ok?
      invariant statsByFileName == StatsOf(importedFileNames[..i], stat)
    {
      var stats := stat(importedFileNames[i]);
      if stats.Err? {
        FirstStatErrorIsFirst(importedFileNames, stat, i);
        return Some(stats.error), statsByFileName;
      }
      statsByFileName := statsByFileName[importedFileNames[i] := stats.value];
      assert importedFileNames[..i + 1] == importedFileNames[..i] + [importedFileNames[i]];
      i := i + 1;
    }
    assert importedFileNames[..i] == importedFileNames;
    return None, statsByFileName;
  }

  /** The error `Finish` reports at the first failing stat is the one `Respond` reports. */
  lemma FirstStatErrorIsFirst(names: seq<string>, stat: string -> Result<FileStat, ErrorValue>, i: nat)
    requires i < |names| && stat(names[i]).Err?
    requires forall k :: 0 <= k < i ==> stat(names[k]).Ok?
    ensures FirstStatError(names, stat) == Some(stat(names[i]).error)
    decreases i
  {
    if i > 0 {
      FirstStatErrorIsFirst(names[1..], stat, i - 1);
    }
  }

  /**
   * The middleware on one request: a `.less` URL has its conditional
   * headers rewritten and its response decided by `Respond` on the ORIGINAL
   * If-None-Match; every other request passes through untouched.
   */
  method Handle(req: Request, down: Downstream, env: Environment) returns (action: Action)
    modifies req
    ensures !InterceptsUrl(req.url) ==> action == PassThrough && req.headers == old(req.headers)
    ensures InterceptsUrl(req.url) ==>
              && req.headers == CleanConditionalHeaders(old(req.headers), CompilessTag)
              && action == Respond(req.url, req.originalUrl, Lookup(old(req.headers), IfNoneMatch), down, env)
  {
    if !InterceptsUrl(req.url) {
      return PassThrough;
    }
    var ifNoneMatch := Lookup(req.headers, IfNoneMatch);
    req.RewriteConditionalHeaders(CompilessTag);
    if !ProcessesResponse(req.url, down.contentType) {
      return Unhijack;
    }
    action := Finish(req.url, req.originalUrl, ifNoneMatch, down, env);
  }
}
