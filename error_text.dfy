/**
 * The text of the error stylesheets: `formatError` and the message of
 * `sendErrorResponse` in lib/compiless.js, and the `replace` chain of
 * `sendErrorResponse` in lib/index.js.
 */
module ErrorText {
  import opened Wrappers
  import opened JsText

  /**
   * What an error callback receives: a string, or an error object whose
   * `line`, `column` and `extract` properties may be absent (the source
   * tests them with `in`). A null or undefined entry of `extract` is None.
   */
  datatype ErrorValue =
    | ErrorString(text: string)
    | ErrorObject(message: string, line: Option<int>, column: Option<int>,
                  extract: Option<seq<Option<string>>>)

  /** `extract.join('\n')`: null and undefined entries print as empty strings. */
  function ExtractText(lines: seq<Option<string>>): string {
    if |lines| == 0 then ""
    else if |lines| == 1 then (if lines[0].Some? then lines[0].value else "")
    else (if lines[0].Some? then lines[0].value else "") + "\n" + ExtractText(lines[1..])
  }

  /** ` at line L`, with `, column C` only when the line is there too. */
  function LocationText(line: Option<int>, column: Option<int>): string {
    if line.None? then ""
    else " at line " + IntToString(line.value) +
         (if column.Some? then ", column " + IntToString(column.value) else "")
  }

  /** `formatError` of lib/compiless.js. */
  function FormatError(err: ErrorValue): (r: string)
    ensures err.ErrorString? ==> r == err.text
    ensures err.ErrorObject? ==> StartsWith(r, err.message)
    ensures err.ErrorObject? && err.line.None? && err.extract.None? ==> r == err.message
    ensures err.ErrorObject? && err.extract.Some? ==> EndsWith(r, ":\n" + ExtractText(err.extract.value))
  {
    match err
    case ErrorString(text) => text
    case ErrorObject(message, line, column, extract) =>
      var r := message + LocationText(line, column) +
               (if extract.Some? then ":\n" + ExtractText(extract.value) else "");
      assert r[..|message|] == message;
      r
  }

  /** Without a line the column is never printed. */
  lemma ColumnNeedsLine(message: string, c1: Option<int>, c2: Option<int>, extract: Option<seq<Option<string>>>)
    ensures FormatError(ErrorObject(message, None, c1, extract)) == FormatError(ErrorObject(message, None, c2, extract))
    ensures FormatError(ErrorObject(message, None, c1, None)) == message
  {
  }

  /** With a line, the message is followed by ` at line L` (and `, column C` when the column is there). */
  lemma LineFollowsMessage(message: string, line: int, column: Option<int>, extract: Option<seq<Option<string>>>)
    ensures var r := FormatError(ErrorObject(message, Some(line), column, extract));
            var loc := " at line " + IntToString(line) + (if column.Some? then ", column " + IntToString(column.value) else "");
            StartsWith(r, message + loc)
  {
    var r := FormatError(ErrorObject(message, Some(line), column, extract));
    var loc := " at line " + IntToString(line) + (if column.Some? then ", column " + IntToString(column.value) else "");
    assert r == message + loc + (if extract.Some? then ":\n" + ExtractText(extract.value) else "");
    assert r[..|message + loc|] == message + loc;
  }

  /** The message of the Less error stylesheet. */
  function CompilessErrorMessage(originalUrl: string, err: ErrorValue): (r: string)
    ensures StartsWith(r, "express-compiless: Error compiling " + originalUrl + ":\n")
    ensures EndsWith(r, FormatError(err))
    ensures |r| == |"express-compiless: Error compiling " + originalUrl + ":\n"| + |FormatError(err)|
  {
    var head := "express-compiless: Error compiling " + originalUrl + ":\n";
    var r := head + FormatError(err);
    assert r[..|head|] == head;
    assert r[|r| - |FormatError(err)|..] == FormatError(err);
    r
  }

  const SassErrorHeader: string := "express-compile-sass:\n  Syntax error in "

  /**
   * The message of the Sass error stylesheet: the compiler text with its
   * first `source string:` removed and then its first `: error:` replaced by
   * a line break and a space.
   */
  function SassErrorMessage(originalUrl: string, err: string): (r: string)
    ensures StartsWith(r, SassErrorHeader + originalUrl + " line ")
  {
    var head := SassErrorHeader + originalUrl + " line ";
    var r := head + ReplaceFirst(ReplaceFirst(err, "source string:", ""), ": error:", ":\n ");
    assert r[..|head|] == head;
    r
  }

  /** Text with neither marker is appended as it is. */
  lemma SassErrorPlain(originalUrl: string, err: string)
    requires !Contains(err, "source string:") && !Contains(err, ": error:")
    ensures SassErrorMessage(originalUrl, err) == SassErrorHeader + originalUrl + " line " + err
  {
    ReplaceFirstAbsent(err, "source string:", "");
    ReplaceFirstAbsent(err, ": error:", ":\n ");
  }

  /**
   * The usual compiler text `source string:<line>: error: <what>` becomes
   * `<line>:\n <what>`, for a line part without colons.
   */
  lemma SassErrorTypical(originalUrl: string, where: string, what: string)
    requires ':' !in where
    ensures SassErrorMessage(originalUrl, "source string:" + where + ": error:" + what) ==
            SassErrorHeader + originalUrl + " line " + where + ":\n " + what
  {
    var rest := where + ": error:" + what;
    assert "source string:" + where + ": error:" + what == "source string:" + rest;
    ReplaceFirstPrefix("source string:", rest, "");
    assert "" + rest == rest;
    ReplaceFirstAfter(where, ": error:", what, ":\n ");
  }
}
