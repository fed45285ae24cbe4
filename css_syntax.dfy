/**
 * How a CSS parser reads back the string literal of the error stylesheet:
 * the input preprocessing of section 3.3, "Consume a string token"
 * (section 4.3.5) and "Consume an escaped code point" (section 4.3.7) of
 * CSS Syntax Module Level 3.
 *
 * A hexadecimal escape swallows ONE whitespace character that follows it.
 * `createCssStringLiteral` writes six-digit escapes with nothing after
 * them, so a space that follows an escaped character in the message is
 * lost on display (`ShownAsWritten`). The terminated literal at the end of
 * this module writes a space after every escape and shows every message
 * without NUL exactly; it is the corrected form.
 */
module CssSyntax {
  import opened Wrappers
  import opened JsText
  import opened CssString

  /** Section 3.3: CR LF, CR and FF become LF, NUL becomes U+FFFD. */
  function Preprocess(s: string): string {
    if s == [] then []
    else if s[0] == '\r' && |s| >= 2 && s[1] == '\n' then "\n" + Preprocess(s[2..])
    else if s[0] == '\r' || s[0] == '\U{000C}' then "\n" + Preprocess(s[1..])
    else if s[0] == '\U{0000}' then "\U{FFFD}" + Preprocess(s[1..])
    else [s[0]] + Preprocess(s[1..])
  }

  predicate IsCssWhitespace(c: char) {
    c == '\n' || c == '\t' || c == ' '
  }

  predicate IsCssHex(c: char) {
    ('0' <= c <= '9') || ('a' <= c <= 'f') || ('A' <= c <= 'F')
  }

  function CssHexValue(c: char): nat {
    if '0' <= c <= '9' then c as int - '0' as int
    else if 'a' <= c <= 'f' then c as int - 'a' as int + 10
    else if 'A' <= c <= 'F' then c as int - 'A' as int + 10
    else 0
  }

  /** The value of a run of hexadecimal digits. */
  function HexNumber(t: string): nat {
    if t == [] then 0 else HexNumber(t[..|t| - 1]) * 16 + CssHexValue(t[|t| - 1])
  }

  /** How many hexadecimal digits (at most `max`) begin `t`. */
  function HexRun(t: string, max: nat): (n: nat)
    ensures n <= max && n <= |t|
    decreases max
  {
    if max == 0 || t == [] || !IsCssHex(t[0]) then 0 else 1 + HexRun(t[1..], max - 1)
  }

  /** Zero, a surrogate or a value above U+10FFFF reads as U+FFFD. */
  function CodePointFor(v: nat): char {
    if v == 0 || (0xD800 <= v <= 0xDFFF) || v > 0x10FFFF then '\U{FFFD}' else v as char
  }

  /**
   * The characters a parser reads from the text between the quotes of a
   * single-quoted string; None when that text would not be read as the
   * inside of one string token (a raw quote or newline, or a final
   * backslash that would escape the closing quote).
   */
  function DecodeStringBody(b: string): Option<string>
    decreases |b|
  {
    if b == [] then Some([])
    else if b[0] == '\'' || b[0] == '\n' then None
    else if b[0] != '\\' then Prepend(b[0], DecodeStringBody(b[1..]))
    else if |b| == 1 then None
    else if b[1] == '\n' then DecodeStringBody(b[2..])
    else if IsCssHex(b[1]) then
      var next := 1 + HexRun(b[1..], 6);
      var skip := if next < |b| && IsCssWhitespace(b[next]) then 1 else 0;
      Prepend(CodePointFor(HexNumber(b[1..next])), DecodeStringBody(b[next + skip..]))
    else Prepend(b[1], DecodeStringBody(b[2..]))
  }

  /** The text a browser shows for the `content` string `literal`. */
  function DisplayedText(literal: string): Option<string> {
    var p := Preprocess(literal);
    if |p| >= 2 && p[0] == '\'' && p[|p| - 1] == '\'' then DecodeStringBody(p[1..|p| - 1]) else None
  }

  // ---------------------------------------------------------------------
  // Facts about the reader
  // ---------------------------------------------------------------------

  lemma {:induction false} PreprocessPlain(s: string)
    requires forall k :: 0 <= k < |s| ==> !(s[k] <= '\U{001F}')
    ensures Preprocess(s) == s
  {
    if s != [] {
      PreprocessPlain(s[1..]);
      assert [s[0]] + s[1..] == s;
    }
  }

  lemma {:induction false} HexRunFull(t: string, m: nat)
    requires |t| >= m
    requires forall k :: 0 <= k < m ==> IsCssHex(t[k])
    ensures HexRun(t, m) == m
  {
    if m > 0 {
      HexRunFull(t[1..], m - 1);
    }
  }

  /** The digits `toString(16)` writes. */
  predicate LowerHex(c: char) {
    ('0' <= c <= '9') || ('a' <= c <= 'f')
  }

  lemma DigitLowerHex(d: nat)
    requires d < 16
    ensures LowerHex(Digits[d])
  {
  }

  lemma {:induction false} HexNumberLower(t: string)
    requires forall k :: 0 <= k < |t| ==> LowerHex(t[k])
    ensures HexNumber(t) == ParseNat(t, 16)
  {
    if t != [] {
      HexNumberLower(t[..|t| - 1]);
    }
  }

  /** The character a parser shows for `c`: NUL reads as U+FFFD. */
  function ShownChar(c: char): char {
    if c == '\U{0000}' then '\U{FFFD}' else c
  }

  /** An escape as `EscapeChar` writes it reads back as the escaped character. */
  lemma Hex6Decodes(c: char, rest: string)
    requires NeedsEscape(c)
    ensures var b := Hex6(c as int) + rest;
            && |b| > 1 && b[0] == '\\' && b[1] != '\n' && IsCssHex(b[1])
            && 1 + HexRun(b[1..], 6) == 7
            && CodePointFor(HexNumber(b[1..7])) == ShownChar(c)
            && b[7..] == rest
  {
    var n := c as int;
    var hi, lo := Digits[n / 16], Digits[n % 16];
    DigitLowerHex(n / 16);
    DigitLowerHex(n % 16);
    var d := ['0', '0', '0', '0', hi, lo];
    assert Hex6(n)[1..7] == d;
    assert forall k :: 0 <= k < 6 ==> LowerHex(d[k]);
    var b := Hex6(n) + rest;
    assert b[1..7] == d;
    assert forall k :: 0 <= k < 6 ==> b[1..][k] == d[k];
    HexRunFull(b[1..], 6);
    HexNumberLower(d);
    Hex6Value(n);
    assert b[7..] == rest;
  }

  /** The escaped character, then whatever follows the escape's optional whitespace. */
  lemma DecodeAfterHex6(c: char, rest: string)
    requires NeedsEscape(c)
    ensures rest != [] && IsCssWhitespace(rest[0]) ==>
              DecodeStringBody(Hex6(c as int) + rest) == Prepend(ShownChar(c), DecodeStringBody(rest[1..]))
    ensures (rest == [] || !IsCssWhitespace(rest[0])) ==>
              DecodeStringBody(Hex6(c as int) + rest) == Prepend(ShownChar(c), DecodeStringBody(rest))
  {
    Hex6Decodes(c, rest);
    var b := Hex6(c as int) + rest;
    if rest != [] {
      assert b[7] == rest[0];
      assert b[8..] == rest[1..];
    }
  }

  // ---------------------------------------------------------------------
  // The literal as written: a following space disappears
  // ---------------------------------------------------------------------

  lemma EscapeBodyQuoteSpace()
    ensures EscapeBody("' ") == Hex6(0x27) + " "
  {
    var s := "' ";
    EscapePieceShape('\'');
    EscapePieceShape(' ');
    assert s[1..][1..] == [];
    assert EscapeBody(s[1..]) == " ";
  }

  lemma DecodeQuoteSpace()
    ensures DecodeStringBody(Hex6(0x27) + " ") == Some("'")
  {
    DecodeAfterHex6('\'', " ");
    assert '\'' as int == 0x27;
    assert " "[0] == ' ' && " "[1..] == [];
    assert DecodeStringBody([]) == Some([]);
    assert ['\''] + [] == "'";
  }

  /** A quote followed by a space is shown as a quote alone. */
  lemma LiteralLosesSpaceAfterEscape()
    ensures DisplayedText(CreateCssStringLiteral("' ")) == Some("'")
  {
    var s := "' ";
    var lit := CreateCssStringLiteral(s);
    assert forall k :: 1 <= k < |lit| - 1 ==> lit[k] == lit[1..|lit| - 1][k - 1];
    PreprocessPlain(lit);
    assert lit[1..|lit| - 1] == EscapeBody(s);
    EscapeBodyQuoteSpace();
    DecodeQuoteSpace();
  }

  /** The escape written for `s[0]` is directly followed by a space, which it swallows. */
  predicate SwallowsSpace(s: string) {
    |s| >= 2 && NeedsEscape(s[0]) && s[1] == ' '
  }

  /**
   * What a browser shows for the literal `createCssStringLiteral(s)`
   * writes: every character (NUL as U+FFFD), except a space that directly
   * follows an escaped character.
   */
  function ShownAsWritten(s: string): string
    decreases |s|
  {
    if s == [] then []
    else if SwallowsSpace(s) then [ShownChar(s[0])] + ShownAsWritten(s[2..])
    else [ShownChar(s[0])] + ShownAsWritten(s[1..])
  }

  /** No escaped character of `s` is directly followed by a space. */
  predicate NoSpaceAfterEscape(s: string) {
    forall k :: 0 <= k < |s| - 1 && NeedsEscape(s[k]) ==> s[k + 1] != ' '
  }

  /** A character that needs no escape reads back as itself. */
  lemma DecodePlainStep(c: char, tail: string)
    requires !NeedsEscape(c)
    ensures DecodeStringBody([c] + tail) == Prepend(c, DecodeStringBody(tail))
  {
    var b := [c] + tail;
    assert b[0] == c && b[1..] == tail;
  }

  /** An escaped body whose first character is not a space does not start with whitespace. */
  lemma EscapeBodyStart(rest: string)
    requires rest != [] && rest[0] != ' '
    ensures EscapeBody(rest) != [] && !IsCssWhitespace(EscapeBody(rest)[0])
  {
    EscapePieceShape(rest[0]);
    var p := EscapePiece(rest[0]);
    assert EscapeBody(rest) == p + EscapeBody(rest[1..]);
    assert p[0] == rest[0] || p[0] == '\\';
  }

  /** One character of the escaped body reads back when no space follows its escape. */
  lemma DecodeEscapeStep(c: char, rest: string)
    requires !(NeedsEscape(c) && rest != [] && rest[0] == ' ')
    ensures DecodeStringBody(EscapePiece(c) + EscapeBody(rest)) == Prepend(ShownChar(c), DecodeStringBody(EscapeBody(rest)))
  {
    EscapePieceShape(c);
    if NeedsEscape(c) {
      if rest != [] {
        EscapeBodyStart(rest);
      }
      DecodeAfterHex6(c, EscapeBody(rest));
    } else {
      DecodePlainStep(c, EscapeBody(rest));
    }
  }

  /** An escaped character followed by a space reads back without the space. */
  lemma DecodeSwallowStep(s: string)
    requires SwallowsSpace(s)
    ensures DecodeStringBody(EscapeBody(s)) == Prepend(ShownChar(s[0]), DecodeStringBody(EscapeBody(s[2..])))
  {
    var rest := s[1..];
    EscapePieceShape(s[0]);
    EscapePieceShape(' ');
    assert rest[1..] == s[2..];
    var tail := EscapeBody(rest);
    assert tail == " " + EscapeBody(s[2..]);
    assert EscapeBody(s) == Hex6(s[0] as int) + tail;
    DecodeAfterHex6(s[0], tail);
    assert tail[1..] == EscapeBody(s[2..]);
  }

  /** The escaped body of any message reads back as `ShownAsWritten`. */
  lemma {:induction false} DecodeEscapeBody(s: string)
    ensures DecodeStringBody(EscapeBody(s)) == Some(ShownAsWritten(s))
    decreases |s|
  {
    if s != [] {
      if SwallowsSpace(s) {
        DecodeSwallowStep(s);
        DecodeEscapeBody(s[2..]);
      } else {
        DecodeEscapeStep(s[0], s[1..]);
        DecodeEscapeBody(s[1..]);
      }
    }
  }

  /** What the literal as written shows, for every message. */
  lemma LiteralDisplay(s: string)
    ensures DisplayedText(CreateCssStringLiteral(s)) == Some(ShownAsWritten(s))
  {
    var lit := CreateCssStringLiteral(s);
    assert forall k :: 0 <= k < |lit| ==> lit[k] == '\'' || 1 <= k < |lit| - 1;
    assert forall k :: 1 <= k < |lit| - 1 ==> lit[k] == lit[1..|lit| - 1][k - 1];
    PreprocessPlain(lit);
    assert lit[1..|lit| - 1] == EscapeBody(s);
    DecodeEscapeBody(s);
  }

  lemma {:induction false} ShownAsWrittenLength(s: string)
    ensures |ShownAsWritten(s)| <= |s|
    decreases |s|
  {
    if s != [] {
      if SwallowsSpace(s) {
        ShownAsWrittenLength(s[2..]);
      } else {
        ShownAsWrittenLength(s[1..]);
      }
    }
  }

  lemma NoSpaceAfterEscapeCons(s: string)
    requires s != []
    ensures NoSpaceAfterEscape(s) <==> !SwallowsSpace(s) && NoSpaceAfterEscape(s[1..])
  {
    var rest := s[1..];
    if NoSpaceAfterEscape(s) {
      forall k | 0 <= k < |rest| - 1 && NeedsEscape(rest[k]) ensures rest[k + 1] != ' ' {
        assert rest[k] == s[k + 1] && rest[k + 1] == s[k + 2];
      }
    }
    if !SwallowsSpace(s) && NoSpaceAfterEscape(rest) {
      forall k | 0 <= k < |s| - 1 && NeedsEscape(s[k]) ensures s[k + 1] != ' ' {
        if k > 0 {
          assert s[k] == rest[k - 1] && s[k + 1] == rest[k];
        }
      }
    }
  }

  /** The display is the message itself exactly when it has no NUL and no swallowed space. */
  lemma {:induction false} ShownExactly(s: string)
    ensures ShownAsWritten(s) == s <==> '\U{0000}' !in s && NoSpaceAfterEscape(s)
    decreases |s|
  {
    if s != [] {
      var c, rest := s[0], s[1..];
      assert s == [c] + rest;
      NoSpaceAfterEscapeCons(s);
      if SwallowsSpace(s) {
        ShownAsWrittenLength(s[2..]);
        assert |ShownAsWritten(s)| < |s|;
      } else {
        ShownExactly(rest);
        var t := ShownAsWritten(s);
        assert t == [ShownChar(c)] + ShownAsWritten(rest);
        if t == s {
          assert t[0] == c && t[1..] == rest;
        }
      }
    }
  }

  /**
   * The literal as written shows the message intact exactly when it holds
   * no NUL and no escaped character is directly followed by a space.
   */
  lemma LiteralShownWhenNoSpaceAfterEscape(s: string)
    ensures DisplayedText(CreateCssStringLiteral(s)) == Some(s) <==> '\U{0000}' !in s && NoSpaceAfterEscape(s)
  {
    LiteralDisplay(s);
    ShownExactly(s);
  }

  // ---------------------------------------------------------------------
  // The terminated literal
  // ---------------------------------------------------------------------

  /** An escaped character is written as its six-digit escape and a space. */
  function TerminatedPiece(c: char): string {
    if NeedsEscape(c) then EscapeChar(c) + " " else [c]
  }

  function TerminatedBody(s: string): string {
    if s == [] then [] else TerminatedPiece(s[0]) + TerminatedBody(s[1..])
  }

  function CreateTerminatedCssStringLiteral(s: string): string {
    "'" + TerminatedBody(s) + "'"
  }

  lemma {:induction false} TerminatedBodyFacts(s: string)
    ensures |TerminatedBody(s)| == |s| + 7 * CountEscaped(s)
    ensures SafeInQuotes(TerminatedBody(s))
  {
    if s != [] {
      TerminatedBodyFacts(s[1..]);
      EscapePieceShape(s[0]);
      PieceSafe(s[0]);
      var p := TerminatedPiece(s[0]);
      assert SafeInQuotes(p) by {
        if NeedsEscape(s[0]) {
          SafeAppend(EscapePiece(s[0]), " ");
        }
      }
      SafeAppend(p, TerminatedBody(s[1..]));
    }
  }

  /**
   * The terminated literal keeps the delimiters and the safety of the
   * original, at the cost of one more character per escape.
   */
  lemma TerminatedLiteralShape(s: string)
    ensures var r := CreateTerminatedCssStringLiteral(s);
            && |r| == |s| + 2 + 7 * CountEscaped(s)
            && r[0] == '\'' && r[|r| - 1] == '\''
            && SafeInQuotes(r[1..|r| - 1])
  {
    TerminatedBodyFacts(s);
    var r := CreateTerminatedCssStringLiteral(s);
    assert r[1..|r| - 1] == TerminatedBody(s);
  }

  lemma TerminatedPieceShape(c: char)
    ensures NeedsEscape(c) ==> TerminatedPiece(c) == Hex6(c as int) + " "
    ensures !NeedsEscape(c) ==> TerminatedPiece(c) == [c]
  {
    EscapePieceShape(c);
  }

  lemma DecodeTerminatedStep(c: char, rest: string)
    requires c != '\U{0000}'
    ensures DecodeStringBody(TerminatedPiece(c) + rest) == Prepend(c, DecodeStringBody(rest))
  {
    TerminatedPieceShape(c);
    if NeedsEscape(c) {
      assert TerminatedPiece(c) + rest == Hex6(c as int) + (" " + rest);
      DecodeAfterHex6(c, " " + rest);
      assert (" " + rest)[1..] == rest;
      assert ShownChar(c) == c;
    } else {
      var b := [c] + rest;
      assert b[1..] == rest;
    }
  }

  lemma {:induction false} DecodeTerminatedBody(s: string)
    requires '\U{0000}' !in s
    ensures DecodeStringBody(TerminatedBody(s)) == Some(s)
  {
    if s != [] {
      DecodeTerminatedBody(s[1..]);
      DecodeTerminatedStep(s[0], TerminatedBody(s[1..]));
      assert [s[0]] + s[1..] == s;
    }
  }

  /** Every message without NUL is shown exactly as it was. */
  lemma TerminatedLiteralShown(s: string)
    requires '\U{0000}' !in s
    ensures DisplayedText(CreateTerminatedCssStringLiteral(s)) == Some(s)
  {
    TerminatedLiteralShape(s);
    var lit := CreateTerminatedCssStringLiteral(s);
    assert forall k :: 1 <= k < |lit| - 1 ==> lit[k] == lit[1..|lit| - 1][k - 1];
    PreprocessPlain(lit);
    assert lit[1..|lit| - 1] == TerminatedBody(s);
    DecodeTerminatedBody(s);
  }
}
