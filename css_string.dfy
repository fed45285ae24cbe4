/**
 * `leftPad` and `createCssStringLiteral` of lib/compiless.js: turning an
 * arbitrary error message into a single-quoted CSS string in which every
 * quote, backslash and C0 control character is written as a backslash
 * and six lower-case hexadecimal digits.
 */
module CssString {
  import opened Wrappers
  import opened JsText

  // ---------------------------------------------------------------------
  // leftPad
  // ---------------------------------------------------------------------

  /** `pad` written `k` times. */
  function Repeat(pad: string, k: nat): string {
    if k == 0 then [] else Repeat(pad, k - 1) + pad
  }

  /** How many times the padding loop runs for a string of length `n`. */
  function PadCount(n: int, length: int, width: nat): nat
    requires width >= 1
    decreases length - n
  {
    if n < length then 1 + PadCount(n + width, length, width) else 0
  }

  /**
   * The value `leftPad` returns once its argument and pad have been
   * defaulted: copies of `pad` in front of `s` until the length reaches
   * `length`; a string already that long comes back unchanged.
   */
  function PadLeft(s: string, length: int, pad: string): (r: string)
    requires pad != []
    ensures r == Repeat(pad, PadCount(|s|, length, |pad|)) + s
    ensures |s| >= length ==> r == s
    ensures |s| < length ==> length <= |r| < length + |pad|
    decreases length - |s|
  {
    if |s| < length then PadLeft(pad + s, length, pad) else s
  }

  /** `String(str || '')`: an absent or empty argument is the empty string. */
  function TextOf(str: Option<string>): string {
    if str.Some? then str.value else ""
  }

  /** `padChar || ' '`: an absent or empty pad is a single space. */
  function PadOf(padChar: Option<string>): (p: string)
    ensures p != []
  {
    if padChar.Some? && padChar.value != "" then padChar.value else " "
  }

  /** The loop of `leftPad`, which prepends the pad until the string is long enough. */
  method LeftPad(str: Option<string>, length: int, padChar: Option<string>) returns (r: string)
    ensures r == PadLeft(TextOf(str), length, PadOf(padChar))
  {
    var pad := PadOf(padChar);
    r := TextOf(str);
    while |r| < length
      invariant PadLeft(r, length, pad) == PadLeft(TextOf(str), length, pad)
      decreases length - |r|
    {
      r := pad + r;
    }
  }

  lemma {:induction false} PadCountUnit(n: int, length: int)
    ensures PadCount(n, length, 1) == if n < length then length - n else 0
    decreases length - n
  {
    if n < length {
      PadCountUnit(n + 1, length);
    }
  }

  lemma {:induction false} RepeatUnit(c: char, k: nat)
    ensures |Repeat([c], k)| == k
    ensures forall j :: 0 <= j < k ==> Repeat([c], k)[j] == c
  {
    if k > 0 {
      RepeatUnit(c, k - 1);
    }
  }

  /**
   * With a one-character pad, a shorter input comes back with exactly
   * `length` characters: pad characters followed by the input.
   */
  lemma PadLeftSingle(s: string, length: int, c: char)
    ensures var r := PadLeft(s, length, [c]);
            && |r| == (if |s| < length then length else |s|)
            && r[|r| - |s|..] == s
            && forall j :: 0 <= j < |r| - |s| ==> r[j] == c
  {
    var k := PadCount(|s|, length, 1);
    PadCountUnit(|s|, length);
    RepeatUnit(c, k);
    var r := PadLeft(s, length, [c]);
    assert r == Repeat([c], k) + s;
    assert |r| == k + |s|;
    assert r[k..] == s;
    forall j | 0 <= j < k ensures r[j] == c {
      assert r[j] == Repeat([c], k)[j];
    }
  }

  // ---------------------------------------------------------------------
  // createCssStringLiteral
  // ---------------------------------------------------------------------

  /** The character class `['\\\x00-\x1f]`. */
  predicate NeedsEscape(c: char) {
    c == '\'' || c == '\\' || c <= '\U{001F}'
  }

  /** `"\\" + leftPad(c.charCodeAt(0).toString(16), 6, '0')`. */
  function EscapeChar(c: char): string {
    "\\" + PadLeft(NatToString(c as int, 16), 6, "0")
  }

  /** The replacement of one character of the global `replace`. */
  function EscapePiece(c: char): string {
    if NeedsEscape(c) then EscapeChar(c) else [c]
  }

  /** `str.replace(/['\\\x00-\x1f]/g, ...)`. */
  function EscapeBody(s: string): string {
    if s == [] then [] else EscapePiece(s[0]) + EscapeBody(s[1..])
  }

  /**
   * `createCssStringLiteral(str)`: the literal is delimited by single
   * quotes, holds no raw quote or control character in between, and is
   * longer than the input by the two quotes plus six characters for every
   * escaped character.
   */
  function CreateCssStringLiteral(s: string): (r: string)
    ensures |r| == |s| + 2 + 6 * CountEscaped(s)
    ensures r[0] == '\'' && r[|r| - 1] == '\''
    ensures r[1..|r| - 1] == EscapeBody(s) && SafeInQuotes(r[1..|r| - 1])
  {
    EscapeBodyFacts(s);
    var r := "'" + EscapeBody(s) + "'";
    assert r[1..|r| - 1] == EscapeBody(s);
    r
  }

  /** The number of characters of `s` that are escaped. */
  function CountEscaped(s: string): nat {
    if s == [] then 0 else (if NeedsEscape(s[0]) then 1 else 0) + CountEscaped(s[1..])
  }

  /** The escape written for code `n`: a backslash and its six-digit hexadecimal form. */
  function Hex6(n: nat): string
    requires n < 256
  {
    ['\\', '0', '0', '0', '0', Digits[n / 16], Digits[n % 16]]
  }

  /** The hexadecimal form of a code below 256 has one or two digits. */
  lemma SmallHex(n: nat)
    requires n < 256
    ensures NatToString(n, 16) == if n < 16 then [Digits[n]] else [Digits[n / 16], Digits[n % 16]]
  {
    if n >= 16 {
      assert NatToString(n / 16, 16) == [Digits[n / 16]];
    }
  }

  /** Padding with `"0"` puts exactly the missing zeros in front. */
  lemma PadWithZeros(h: string, length: nat)
    requires |h| <= length
    ensures PadLeft(h, length, "0") == seq(length - |h|, _ => '0') + h
  {
    var r := PadLeft(h, length, "0");
    PadLeftSingle(h, length, '0');
    var z := seq(length - |h|, _ => '0');
    forall j | 0 <= j < length ensures r[j] == (z + h)[j] {
      if j >= length - |h| {
        assert r[j] == r[length - |h|..][j - (length - |h|)];
      }
    }
  }

  /** One or two hexadecimal digits padded to six. */
  lemma PadDigitPair(h: string, hi: char, lo: char)
    requires h == [hi, lo] || (h == [lo] && hi == '0')
    ensures PadLeft(h, 6, "0") == ['0', '0', '0', '0', hi, lo]
  {
    PadWithZeros(h, 6);
    if |h| == 1 {
      assert seq(5, _ => '0') + h == ['0', '0', '0', '0', hi, lo];
    } else {
      assert seq(4, _ => '0') + h == ['0', '0', '0', '0', hi, lo];
    }
  }

  lemma EscapeCharShape(c: char)
    requires NeedsEscape(c)
    ensures EscapeChar(c) == Hex6(c as int)
  {
    var n := c as int;
    SmallHex(n);
    PadDigitPair(NatToString(n, 16), Digits[n / 16], Digits[n % 16]);
  }

  lemma EscapePieceShape(c: char)
    ensures NeedsEscape(c) ==> EscapePiece(c) == Hex6(c as int)
    ensures !NeedsEscape(c) ==> EscapePiece(c) == [c]
    ensures |EscapePiece(c)| == if NeedsEscape(c) then 7 else 1
  {
    if NeedsEscape(c) {
      EscapeCharShape(c);
    }
  }

  /** No quote and no control character survives into the escaped text. */
  predicate SafeInQuotes(b: string) {
    forall k :: 0 <= k < |b| ==> b[k] != '\'' && !(b[k] <= '\U{001F}')
  }

  lemma Hex6Safe(n: nat)
    requires n < 256
    ensures SafeInQuotes(Hex6(n))
  {
    var h := Hex6(n);
    assert '0' <= Digits[n / 16] && '0' <= Digits[n % 16];
    assert forall k :: 0 <= k < 7 ==> h[k] == '\\' || '0' <= h[k];
  }

  lemma PieceSafe(c: char)
    ensures SafeInQuotes(EscapePiece(c))
  {
    EscapePieceShape(c);
    if NeedsEscape(c) {
      Hex6Safe(c as int);
    }
  }

  lemma SafeAppend(a: string, b: string)
    requires SafeInQuotes(a) && SafeInQuotes(b)
    ensures SafeInQuotes(a + b)
  {
    assert forall k :: |a| <= k < |a + b| ==> (a + b)[k] == b[k - |a|];
  }

  lemma {:induction false} EscapeBodyFacts(s: string)
    ensures |EscapeBody(s)| == |s| + 6 * CountEscaped(s)
    ensures SafeInQuotes(EscapeBody(s))
  {
    if s != [] {
      EscapeBodyFacts(s[1..]);
      EscapePieceShape(s[0]);
      PieceSafe(s[0]);
      SafeAppend(EscapePiece(s[0]), EscapeBody(s[1..]));
    }
  }

  /** Characters outside the class are copied as they are. */
  lemma {:induction false} EscapeBodyPlain(s: string)
    requires forall k :: 0 <= k < |s| ==> !NeedsEscape(s[k])
    ensures EscapeBody(s) == s
  {
    if s != [] {
      EscapeBodyPlain(s[1..]);
      assert [s[0]] + s[1..] == s;
    }
  }

  // ---------------------------------------------------------------------
  // Reading the escapes back
  // ---------------------------------------------------------------------

  function Prepend(c: char, rest: Option<string>): Option<string> {
    if rest.Some? then Some([c] + rest.value) else None
  }

  /**
   * Reads text written by `EscapeBody`: a backslash introduces exactly six
   * hexadecimal digits, every other character stands for itself.
   */
  function ReadEscapes(b: string): Option<string>
    decreases |b|
  {
    if b == [] then Some([])
    else if b[0] == '\\' then
      if |b| >= 7 && forall k :: 1 <= k < 7 ==> IsDigitIn(b[k], 16) then
        var v := ParseNat(b[1..7], 16);
        if v < 0xD800 then Prepend(v as char, ReadEscapes(b[7..])) else None
      else None
    else Prepend(b[0], ReadEscapes(b[1..]))
  }

  lemma {:induction false} ParseNatLeadingZero(t: string)
    ensures ParseNat(['0'] + t, 16) == ParseNat(t, 16)
  {
    if t != [] {
      var init := t[..|t| - 1];
      ParseNatLeadingZero(init);
      assert (['0'] + t)[..|t|] == ['0'] + init;
    } else {
      ParseNatSnoc([], '0', 16);
      assert [] + ['0'] == ['0'];
    }
  }

  /** The six digits of an escape read back as the escaped character's code. */
  lemma Hex6Value(n: nat)
    requires n < 256
    ensures ParseNat(Hex6(n)[1..7], 16) == n
  {
    var hi, lo := Digits[n / 16], Digits[n % 16];
    assert Hex6(n)[1..7] == ['0'] + (['0'] + (['0'] + (['0'] + [hi, lo])));
    ParseNatLeadingZero(['0'] + (['0'] + (['0'] + [hi, lo])));
    ParseNatLeadingZero(['0'] + (['0'] + [hi, lo]));
    ParseNatLeadingZero(['0'] + [hi, lo]);
    ParseNatLeadingZero([hi, lo]);
    ParseNatSnoc([hi], lo, 16);
    ParseNatSnoc([], hi, 16);
    assert [] + [hi] == [hi];
    assert [hi] + [lo] == [hi, lo];
    DigitValueOfDigit(n / 16);
    DigitValueOfDigit(n % 16);
  }

  lemma EscapedPieceRead(c: char, rest: string)
    requires NeedsEscape(c)
    ensures ReadEscapes(EscapePiece(c) + rest) == Prepend(c, ReadEscapes(rest))
  {
    EscapePieceShape(c);
    var n := c as int;
    var b := Hex6(n) + rest;
    Hex6Value(n);
    assert b[1..7] == Hex6(n)[1..7];
    assert b[7..] == rest;
    assert Digits[..16] == Digits;
    assert Digits[n / 16] in Digits && Digits[n % 16] in Digits && '0' in Digits;
    assert b[1] == b[2] == b[3] == b[4] == '0';
    assert b[5] == Digits[n / 16] && b[6] == Digits[n % 16];
    assert forall k :: 1 <= k < 7 ==> IsDigitIn(b[k], 16);
  }

  /** Reading the escapes back recovers the message. */
  lemma {:induction false} ReadEscapeBody(s: string)
    ensures ReadEscapes(EscapeBody(s)) == Some(s)
  {
    if s != [] {
      ReadEscapeBody(s[1..]);
      if NeedsEscape(s[0]) {
        EscapedPieceRead(s[0], EscapeBody(s[1..]));
      } else {
        var b := [s[0]] + EscapeBody(s[1..]);
        assert b[1..] == EscapeBody(s[1..]);
      }
      assert [s[0]] + s[1..] == s;
    }
  }

  /** Two different messages never give the same literal. */
  lemma LiteralInjective(a: string, b: string)
    requires CreateCssStringLiteral(a) == CreateCssStringLiteral(b)
    ensures a == b
  {
    var ra, rb := CreateCssStringLiteral(a), CreateCssStringLiteral(b);
    assert ra[1..|ra| - 1] == EscapeBody(a);
    assert rb[1..|rb| - 1] == EscapeBody(b);
    ReadEscapeBody(a);
    ReadEscapeBody(b);
  }
}
