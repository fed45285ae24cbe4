# express-compile-sass / express-compiless, modelled in Dafny

This project models the two Express middlewares of the repository:

- `lib/compiless.js` compiles `.less` stylesheets on the fly.
- `lib/index.js` compiles `.scss` and `.sass` stylesheets the same way.

Both take over a request whose URL names a stylesheet source. They rewrite the
request's conditional-GET headers and hijack the downstream (static file)
response. When that response ends, they answer with one of: the compiled CSS,
a 304, an error stylesheet, or the untouched downstream response.

The model states in Dafny what each step computes.

- `JsText` covers the JavaScript string built-ins the code relies on:
  `indexOf`, a first-occurrence `replace`, `split` and `join`,
  `toString(radix)`, `substr`, the ASCII folding of a `/i` regular
  expression, and `Buffer.byteLength`.
- `CssString` covers `leftPad` and `createCssStringLiteral`.
- `CssSyntax` is a reader for CSS string tokens, following sections 3.3,
  4.3.5 and 4.3.7 of CSS Syntax Module Level 3. It shows what a browser
  displays for the error stylesheet.
- `ConditionalGet` filters If-None-Match and drops If-Modified-Since.
- `RequestMatch` holds the URL, Content-Type and Accept tests.
- `ErrorText` covers `formatError` and the Sass error message.
- `Validator` covers `sort()`, the Less ETag built from the imports' stats,
  and the Sass ETag.
- `Http` holds the request (a class whose `headers` dictionary is rewritten
  in place), the captured downstream response and the `Action` the hijack
  callback ends in:
  - `PassThrough`
  - `Unhijack`
  - `ResendStatus`
  - `NotModified`
  - `SendCss`
  - `SendError`
- `Compiless` models the Less middleware. The pure decision `Respond` is
  proved equal to the step-by-step `Finish` and `Handle` methods.
- `CompileSass` models the Sass middleware: the `Middleware` class owns
  `sassFileMap` and the watch list, `Respond` decides the response, and
  `Handle` is the step-by-step method.

These are parameters of the model:

- the compilers (`less.Parser`, `root.toCSS()`, `sass.render`)
- MD5 (any function returning 32 lower-case hexadecimal digits)
- `fs.stat`
- `Path.relative` and `Path.join`
- the `csserror` module
- the UTF-8 decoding of the body

Points where the code behaves differently from what a reader might expect,
and which the model follows as written:

- There is no cache of compiled output: every request that is taken over is
  compiled again. The Less middleware decides the 304 by looking for the new
  ETag, as a substring, in the ORIGINAL If-None-Match value, read before the
  rewrite (`lib/compiless.js:33`, `:107`).
- The Less middleware sends `Content-Type: text/css` (`lib/compiless.js:64`,
  `:122`). The Sass middleware sends `text/css; charset=UTF-8`
  (`lib/index.js:114`) and an ETag without quotes (`lib/index.js:115`), which
  its own If-None-Match filter deletes when a client echoes it (see
  Findings). `CompileSass.CssResponse` sends that unquoted ETag; the quoted
  one appears only in `CompileSass.CorrectedCssResponse`.
- The Less error stylesheet writes the message with `createCssStringLiteral`
  (`lib/compiless.js:65`), whose escapes can swallow a following space when a
  browser reads the stylesheet (see Findings). `Compiless.ErrorStylesheet`
  writes the same literal; the terminated literal appears only in
  `Compiless.CorrectedErrorStylesheet`.

## Model

| member | source | states |
|---|---|---|
| JsText.IndexOf | lib/compiless.js:107 | `indexOf` is -1 exactly when the pattern occurs nowhere; otherwise it is an occurrence with none before it |
| JsText.ContainsSelf | lib/compiless.js:107 | a header value equal to the new ETag contains it |
| JsText.ReplaceFirstAt | lib/index.js:83 | a string-pattern `replace` rewrites the leftmost occurrence only |
| JsText.ReplaceFirstAbsent | lib/index.js:83 | `replace` with an absent pattern returns its input |
| JsText.Split | lib/compiless.js:35 | `split(" ")` yields at least one piece and no piece holds a space |
| JsText.JoinSplit | lib/compiless.js:35-39 | joining the pieces of a split with the separator gives back the original |
| JsText.SplitJoin | lib/compiless.js:35-39 | splitting a join of separator-free pieces gives back the pieces |
| JsText.NatToString | lib/compiless.js:21 | `toString(radix)` is non-empty, uses only digits of the radix and has no leading zero |
| JsText.ParseNatToString | lib/compiless.js:21 | reading the digits of `toString(radix)` back yields the number |
| JsText.IntToString | lib/compiless.js:100 | `String(n)` starts with `-` exactly for negative numbers |
| JsText.Take | lib/compiless.js:102 | `substr(0, n)` is the first `min(n, length)` characters |
| JsText.LowerAscii | lib/compiless.js:47 | ASCII case folding keeps the length |
| JsText.Utf8LengthAppend | lib/compiless.js:119-123 | `Buffer.byteLength` of a concatenation is the sum of the byte lengths |
| JsText.Utf8LengthBounds | lib/compiless.js:123 | the byte length lies between the character count and four times it, and equals it exactly for ASCII text |
| CssString.PadLeft | lib/compiless.js:11-17 | the padded string is copies of the pad before the input, unchanged when already long enough, and shorter than `length` plus one pad |
| CssString.LeftPad | lib/compiless.js:11-17 | the prepend loop returns `PadLeft` of the defaulted string and pad |
| CssString.PadLeftSingle | lib/compiless.js:11-17 | with a one-character pad the result has exactly `length` characters: pad characters followed by the input |
| CssString.EscapeCharShape | lib/compiless.js:21 | an escaped character is written as a backslash, four zeros and its two hexadecimal digits |
| CssString.EscapePieceShape | lib/compiless.js:20-22 | quotes, backslashes and control characters become seven-character escapes; every other character is copied |
| CssString.CreateCssStringLiteral | lib/compiless.js:19-23 | the literal is delimited by single quotes, holds no raw quote or control character in between, and is two plus six per escape longer than the input |
| CssString.EscapeBodyPlain | lib/compiless.js:20 | text without characters of the class is copied unchanged |
| CssString.ReadEscapeBody | lib/compiless.js:19-23 | reading each escape as six hexadecimal digits recovers the message |
| CssString.LiteralInjective | lib/compiless.js:19-23 | different messages never give the same literal |
| CssSyntax.LiteralLosesSpaceAfterEscape | lib/compiless.js:19-23 | as written, a quote followed by a space is displayed without the space |
| CssSyntax.DecodeEscapeBody | lib/compiless.js:19-23 | a CSS parser reads the escaped text of any message back as the message with every space after an escaped character dropped and NUL as U+FFFD |
| CssSyntax.LiteralDisplay | lib/compiless.js:19-23 | the literal as written displays exactly that text, for every message |
| CssSyntax.ShownExactly | lib/compiless.js:19-23 | that text equals the message exactly when the message has no NUL and no escaped character followed by a space |
| CssSyntax.LiteralShownWhenNoSpaceAfterEscape | lib/compiless.js:19-23 | as written, a message is displayed exactly when it has no NUL and no escaped character is followed by a space |
| CssSyntax.TerminatedLiteralShape | lib/compiless.js:19-23 | the corrected literal is quoted and safe, one character per escape longer than the original |
| CssSyntax.TerminatedLiteralShown | lib/compiless.js:65 | the corrected literal displays every message without NUL exactly |
| ConditionalGet.KeepTagged | lib/compiless.js:35-37 | the filter keeps exactly the tokens ending in the tag and a quote, and never more tokens than it was given |
| ConditionalGet.KeepTaggedAppend | lib/compiless.js:35-37 | the filter keeps token order: it distributes over concatenation |
| ConditionalGet.KeepTaggedAll | lib/compiless.js:35-37 | tokens that all carry the tag pass unchanged |
| ConditionalGet.CleanIfNoneMatchTokens | lib/compiless.js:34-43 | the header is deleted exactly when no token carries the tag; otherwise its tokens are the tagged tokens, in order |
| ConditionalGet.CleanIfNoneMatchIdempotent | lib/compiless.js:34-43 | a rewritten header is non-empty and rewriting it again changes nothing |
| ConditionalGet.TaggedTokenSurvives | lib/compiless.js:35-39 | a single tagged token without spaces is kept as it is |
| ConditionalGet.UntaggedTokenDropped | lib/compiless.js:38-42 | a single untagged token without spaces makes the header go |
| ConditionalGet.CleanConditionalHeaders | lib/compiless.js:33-44 | the rewrite removes If-Modified-Since and adds no header |
| ConditionalGet.CleanConditionalHeadersSpec | lib/compiless.js:33-44 | If-Modified-Since is gone, other headers are untouched, and If-None-Match stays exactly when it was empty or has a tagged token |
| ConditionalGet.CleanConditionalHeadersIdempotent | lib/index.js:60-75 | rewriting the headers twice equals rewriting them once |
| Http.Lookup | lib/compiless.js:33 | a header read is present exactly when the dictionary has the name, with its value |
| Http.Request.RewriteConditionalHeaders | lib/compiless.js:33-44 | the in-place rewrite leaves `headers` equal to the cleaned dictionary of the old headers |
| RequestMatch.HasExtension | lib/compiless.js:31 | the URL test holds exactly when the extension occurs at some index followed by the end or a one-line query |
| RequestMatch.SearchExtension | lib/compiless.js:31 | the regex search succeeds exactly when some index has the extension followed by the end or a one-line query |
| RequestMatch.PathWithExtension | lib/compiless.js:31 | a URL ending in the extension is taken |
| RequestMatch.PathWithExtensionAndQuery | lib/compiless.js:31 | a URL with the extension and a query string on one line is taken |
| RequestMatch.NoQueryMatchesOnlySuffix | lib/compiless.js:31 | without `?`, a URL is taken exactly when it ends in the extension |
| RequestMatch.LeadingWhitespace | lib/compiless.js:47 | `\s*` stops at the first non-whitespace character |
| RequestMatch.CharsetParamExact | lib/compiless.js:47 | the scan accepts exactly nothing, or `;`, whitespace, `charset=` and one or more of `[a-z0-9-]` |
| RequestMatch.MatchesMediaType | lib/compiless.js:47 | every letter case of the bare media type matches, and a matching content type is never shorter than the media type |
| RequestMatch.CharsetMediaTypeMatches | lib/compiless.js:47 | the media type with a charset parameter matches |
| RequestMatch.MediaTypeCaseInsensitive | lib/compiless.js:47 | the `/i` test gives the same answer on the folded content type |
| RequestMatch.AcceptsCss | lib/index.js:39 | the Accept test holds exactly when the header is present and `text/css` occurs in it |
| RequestMatch.FirstLetterDiffers | lib/compiless.js:47 | a content type whose first letter differs does not match |
| RequestMatch.LowerAsciiIdempotent | lib/compiless.js:47 | folding twice equals folding once |
| ErrorText.FormatError | lib/compiless.js:50-58 | a string error is returned as is; an object's text starts with its message, is just the message without line and extract, and ends with the joined extract |
| ErrorText.ColumnNeedsLine | lib/compiless.js:55 | without a line the column is never printed |
| ErrorText.LineFollowsMessage | lib/compiless.js:55 | with a line, the message is followed by ` at line L` and, if present, `, column C` |
| ErrorText.CompilessErrorMessage | lib/compiless.js:61 | the Less message is the fixed header with the original URL and `:` and a newline, followed by the formatted error and nothing else |
| ErrorText.SassErrorMessage | lib/index.js:83 | the Sass message starts with the fixed header, the original URL and ` line ` |
| ErrorText.SassErrorPlain | lib/index.js:83 | compiler text with neither marker is appended unchanged |
| ErrorText.SassErrorTypical | lib/index.js:83 | `source string:<line>: error:<what>` becomes `<line>:\n <what>` |
| Validator.StrLeqTotal | lib/compiless.js:98 | any two names are ordered one way or the other |
| Validator.StrLeqAntisymmetric | lib/compiless.js:98 | names ordered both ways are equal |
| Validator.StrLeqTransitive | lib/compiless.js:98 | the order is transitive |
| Validator.Insert | lib/compiless.js:98 | inserting into a sorted list keeps it sorted and adds exactly the new name |
| Validator.SortStrings | lib/compiless.js:98 | `sort()` returns a sorted permutation of its input |
| Validator.SortedUnique | lib/compiless.js:98 | two sorted lists with the same names are equal |
| Validator.SortPermutationInvariant | lib/compiless.js:98 | permutations of the imports sort to the same list |
| Validator.ShortDigest | lib/compiless.js:102 | the digest is sixteen lower-case hexadecimal digits |
| Validator.StatFields | lib/compiless.js:97-101 | three fields per import |
| Validator.StatFieldsAt | lib/compiless.js:97-101 | the k-th import's name, mtime and size sit at positions 3k, 3k+1 and 3k+2 |
| Validator.StripQuotes | lib/compiless.js:95 | `replace(/^"|"$/g, '')` removes one leading and one trailing quote when present: both when the value is quoted on both sides, only the one present when quoted on one side, none when unquoted, and a lone quote becomes empty |
| Validator.StripQuotesStrong | lib/compiless.js:95 | a strong entity-tag `"x"` becomes `x` |
| Validator.StripQuotesWeak | lib/compiless.js:95 | a weak entity-tag `W/"x"` keeps its `W/"` prefix and loses only the trailing quote |
| Validator.CompilessETagOrderIndependent | lib/compiless.js:93-104 | the ETag does not depend on the order the compiler listed the imports in |
| Validator.CompilessETag | lib/compiless.js:93-104 | the Less ETag is quoted and ends in `-compiless"`, the suffix the If-None-Match filter keeps |
| Validator.CompilessETagWithoutImports | lib/compiless.js:95-104 | without imports the ETag is the unquoted downstream ETag with `-compiless` added, in quotes |
| Validator.CompilessETagWithImports | lib/compiless.js:95-104 | with imports the ETag is the unquoted downstream ETag, `-`, the 16-digit digest of the sorted imports' stats and `-compiless`, in quotes |
| Validator.CompilessETagNoSpace | lib/compiless.js:93-104 | the ETag holds no space when the downstream ETag holds none |
| Validator.CompilessETagSurvivesFilter | lib/compiless.js:35-39 | an echoed Less ETag passes the If-None-Match filter unchanged |
| Validator.CollectStats | lib/compiless.js:97-101 | the `forEach` pushes exactly the name, mtime and size fields of the sorted imports |
| Validator.BuildCompilessETag | lib/compiless.js:93-104 | the assembled header is the ETag function of the downstream ETag, imports and stats |
| Validator.SassETagAsWritten | lib/index.js:115 | the Sass ETag is sixteen hexadecimal digits followed by `-compile-sass`, with no quotes |
| Validator.SassETagAsWrittenIsFiltered | lib/index.js:115 | the unquoted Sass ETag never carries the `-compile-sass"` tag, so an echo of it is deleted by the filter |
| Validator.SassETagSurvivesFilter | lib/index.js:115 | the quoted Sass ETag carries the tag and passes the filter unchanged |
| Compiless.Configure | lib/compiless.js:26-28 | setup succeeds exactly with options whose root is non-empty; otherwise it fails with `options.root is mandatory` |
| Compiless.ProcessesResponse | lib/compiless.js:46-49 | only a present, non-empty Content-Type is compiled, and `text/less` is compiled in any letter case |
| Compiless.CharsetLessProcessed | lib/compiless.js:47 | `text/less` with a charset parameter is compiled |
| Compiless.FallbackOnlyForLessUrls | lib/compiless.js:49 | `application/octet-stream` is compiled exactly for `.less` URLs |
| Compiless.CssNotProcessed | lib/compiless.js:46-49 | a response without Content-Type, or with `text/css`, is not compiled |
| Compiless.FirstStatError | lib/compiless.js:87-92 | no error exactly when every stat succeeds; a reported error is one of the stat failures |
| Compiless.StatsOf | lib/compiless.js:86-91 | every import is recorded with its own stat |
| Compiless.ErrorStylesheet | lib/compiless.js:65 | the error stylesheet is the fixed rules, then the message as `createCssStringLiteral` writes it as the `content` value, then `}` and a newline |
| Compiless.ErrorStylesheetShowsMessage | lib/compiless.js:61-65 | the `content` string displays the message with every space after an escaped character dropped (NUL as U+FFFD), so it displays the message intact exactly when the message has no NUL and no escaped character followed by a space |
| Compiless.ErrorStylesheetDropsIndent | lib/compiless.js:50-65 | a Less error whose formatted text starts with a space is not displayed intact, because that space follows the escaped newline of the header |
| Compiless.CorrectedErrorStylesheet | lib/compiless.js:65 | the corrected stylesheet has the same rules around the terminated literal |
| Compiless.CorrectedErrorStylesheetShowsMessage | lib/compiless.js:65 | the corrected stylesheet displays every message without NUL exactly |
| Compiless.ErrorResponse | lib/compiless.js:60-66 | a failure is answered by an error stylesheet of type `text/css` |
| Compiless.IncludeRules | lib/compiless.js:119-121 | the include rules are empty exactly when there are no imports |
| Compiless.IncludeRulesAppend | lib/compiless.js:119-121 | the rules of a concatenated import list are the two lists' rules, in order: one rule per import, in list order |
| Compiless.IncludeOrder | lib/compiless.js:98 | the include rules follow the sorted imports after an ETag was built, the compiler's order otherwise |
| Compiless.Compiled | lib/compiless.js:107-124 | after the stats, the answer is a 304, an error stylesheet or the CSS |
| Compiless.Process | lib/compiless.js:84-126 | after the parse, the answer is a 304, an error stylesheet or the CSS |
| Compiless.Respond | lib/compiless.js:46-77 | the response is released exactly when its type is not Less, and the status is re-sent exactly when nothing was captured |
| Compiless.NotModifiedExactly | lib/compiless.js:107-109 | 304 exactly when the downstream had an ETag and the original If-None-Match contains the new ETag, which the 304 carries |
| Compiless.RevalidationHits | lib/compiless.js:104-109 | a client echoing the ETag it received gets a 304 |
| Compiless.SendCssShape | lib/compiless.js:112-124 | the CSS is `text/css`, has one include rule per import before the root CSS and its UTF-8 length as Content-Length, and carries the new ETag when the downstream had one |
| Compiless.SendErrorShape | lib/compiless.js:60-66 | an error stylesheet is `text/css` and shows a compile or stat error; a failed parse or stat always ends in one |
| Compiless.Finish | lib/compiless.js:74-127 | the end handler, with its stat loop, ETag header, in-place sort and body, answers what `Respond` decides |
| Compiless.StatAll | lib/compiless.js:87-92 | the stat loop reports the first failing stat, or the stats of every import |
| Compiless.FirstStatErrorIsFirst | lib/compiless.js:87-92 | the first failure in list order is the reported one |
| Compiless.Handle | lib/compiless.js:30-135 | a `.less` request has its headers cleaned and gets `Respond` on the original If-None-Match; any other request passes through with its headers unchanged |
| CompileSass.Configure | lib/index.js:10-16 | setup succeeds exactly with options whose root is non-empty; missing options throw a TypeError, a missing root the fixed message |
| CompileSass.InterceptsRequest | lib/index.js:39-41 | without `strictType` only the URL counts; with it the Accept header must name `text/css`, and a request without Accept is never taken over |
| CompileSass.ProcessesResponse | lib/index.js:78-94 | only a present, non-empty Content-Type is compiled, and `text/x-scss` and `text/x-sass` are compiled in any letter case |
| CompileSass.FallbackOnlyForSassUrls | lib/index.js:94 | `application/octet-stream` is compiled exactly for `.scss` and `.sass` URLs |
| CompileSass.Register | lib/index.js:20-36 | registration removes no entry |
| CompileSass.RegisterKeys | lib/index.js:20-36 | after registration the table has an entry for exactly the old paths and the imports |
| CompileSass.RegisterOthers | lib/index.js:20-36 | entries of paths not imported are untouched |
| CompileSass.RegisterImported | lib/index.js:21-35 | every import's list is its old list with the main file appended when missing |
| CompileSass.RegisterSpec | lib/index.js:20-36 | the table after `watchImports`, in closed form |
| CompileSass.RegisterCovers | lib/index.js:32-34 | every import lists the main file afterwards |
| CompileSass.RegisterKeepsLists | lib/index.js:32-34 | lists stay free of duplicates, keep their old entries as a prefix and grow by at most one |
| CompileSass.RegisterIdempotent | lib/index.js:20-36 | registering the same imports twice equals registering them once |
| CompileSass.NewWatchesSpec | lib/index.js:22-30 | a watch goes on exactly the imports that had no entry, once each |
| CompileSass.WatchedStaysFresh | lib/index.js:22-25 | adding watches only for paths without an entry keeps the watch list duplicate-free |
| CompileSass.RegisterKeepsWatches | lib/index.js:20-36 | registration with its new watches keeps lists duplicate-free and watches exactly the paths with an entry, once each, and every import lists the main file |
| CompileSass.Middleware.constructor | lib/index.js:18 | the table starts empty and nothing is watched |
| CompileSass.Middleware.WatchImports | lib/index.js:20-36 | the loop leaves the table as `Register` says, appends the new watches, covers every import and keeps `Valid` |
| CompileSass.Middleware.FileChanged | lib/index.js:25-29 | a change to a watched file touches the main files currently listed for it, each once |
| CompileSass.ErrorResponse | lib/index.js:82-91 | a render failure is answered by an error stylesheet of type `text/css; charset=UTF-8` |
| CompileSass.CssResponse | lib/index.js:112-118 | the CSS is sent as `text/css; charset=UTF-8` with its UTF-8 length and the unquoted ETag, which the If-None-Match filter deletes when a client echoes it |
| CompileSass.CorrectedCssResponse | lib/index.js:112-118 | the corrected response carries the quoted ETag, which passes the filter unchanged |
| CompileSass.Respond | lib/index.js:77-124 | the response is released exactly when its type is not Sass, and the status is re-sent exactly when nothing was captured |
| CompileSass.RespondSpec | lib/index.js:77-124 | past the gates, an error stylesheet exactly for a failed render, otherwise the rendered CSS with its UTF-8 length and the unquoted ETag, which an echoing client loses to the filter |
| CompileSass.Handle | lib/index.js:38-129 | a request taken over has its headers cleaned, gets `Respond`, and after a successful render registers the included files under `Path.join(root, url)` and appends exactly their new watches; any other request changes nothing |

## Left out

- The response streams are left out: `res.hijack`, the `data` and `end` events, `unhijack` and `next()`. The model takes the captured downstream response as a value and returns an `Action`. The `error` event (release the response and call `next()`) is not modelled.
- Header replay is left out. The status code and other headers that the downstream response set are not part of `Action`.
- The Less and Sass compilers, `root.toCSS()` and `sass.render` are parameters. The import list of `parser.imports.files` and `stats.includedFiles` are taken as given.
- `crypto` MD5 is a parameter. Any function returning 32 lower-case hexadecimal digits is allowed, so no property depends on MD5 itself.
- `fs.stat`, `fs.watch` and `fs.utimes` are not performed. A stat is a parameter. A watch is a path appended to `CompileSass.Middleware.watched`. A change notification is `FileChanged`, which returns the main files to touch.
- `Path.resolve`, `Path.relative` and `Path.join` are parameters. This includes the directory regex that computes `baseDir` at `lib/compiless.js:79`. Only their use is modelled.
- The `csserror` module is a parameter.
- The failure to load `node-sass` (`lib/index.js:42-56`) is left out, because it depends on the module system.
- `options.logToConsole` and `console.error` are left out.
- Compiless.StatAll: the source stats up to ten files at once with `async.eachLimit`, and reports whichever failure arrives first in time. The model stats in list order and reports the first failure in that order, because timing is not modelled.
- Validator.SortStrings: JavaScript's `sort()` compares UTF-16 code units, while the model compares whole characters (code points). The two orders agree on the Basic Multilingual Plane, but they can differ for names with characters beyond U+FFFF.
- Compiless.ErrorResponse: the Content-Length that Express's `res.send` adds is not modelled. Neither is the `(cssText || '')` tail, because every call site passes no CSS text, so that tail is always empty.
- CompileSass.Middleware.Valid: `sassFileMap` is a plain object in the source, so a path such as `__proto__` or `constructor` behaves differently there. The model uses a map.
- Number formatting beyond plain integers is left out: `String(n)` in exponent form for mtimes of 1e21 or more, and non-integer `line`/`column` values in `formatError`.
- JavaScript strings are sequences of UTF-16 code units, while the model's `string` is a sequence of code points. So `length`, `substr`, `indexOf`, `replace` and `leftPad` count differently for characters beyond U+FFFF. For example, `leftPad("😀", 3, "0")` gives `"0😀"` in the source but `"00😀"` from `CssString.PadLeft`. Only ASCII hexadecimal digits reach `leftPad` and `substr` in the middlewares, so their results are unaffected.
- Invalid UTF-8 in the captured body is not modelled; decoding is a parameter.
- A NUL in an error message is displayed as U+FFFD by CSS parsers. `CssSyntax.ShownAsWritten` shows it so, and `CssSyntax.TerminatedLiteralShown` requires a message without NUL.

## Findings

| source | as written | input that shows it | evidently intended | confidence | as-written member | corrected member |
|---|---|---|---|---|---|---|
| lib/compiless.js:19-23 | each escape is six hexadecimal digits with nothing after it; a CSS parser swallows one whitespace character after a hexadecimal escape, so a space after an escaped character is lost when the error stylesheet of lib/compiless.js:65 is displayed | a Less error whose formatted text starts with a space (the string error ` x`): the header ends in an escaped newline, and the space after it is not displayed; likewise the message `' ` is displayed as `'` | every message is displayed exactly; an escape is followed by a space that the parser consumes | high, not executed | Compiless.ErrorStylesheetDropsIndent | Compiless.CorrectedErrorStylesheetShowsMessage |
| lib/index.js:115 | the ETag is set as `<digest>-compile-sass` without quotes, but the If-None-Match filter at lib/index.js:64-66 keeps only tokens ending in `-compile-sass"` | a client that echoes the ETag `0123456789abcdef-compile-sass` has its If-None-Match deleted before the request goes downstream: the echoed validator is stripped, and the header value is not a quoted entity-tag | a quoted ETag `"<digest>-compile-sass"`, which passes the filter unchanged | high, not executed | Validator.SassETagAsWrittenIsFiltered | CompileSass.CorrectedCssResponse |
