/**
 * The JavaScript string built-ins the middleware relies on, stated on
 * `seq<char>`: `indexOf`, `replace` with a string pattern, `split(" ")`,
 * `join(" ")`, `Number.prototype.toString(radix)`, `substr(0, n)`,
 * ASCII case folding (what a non-Unicode `/i` regular expression does on
 * the patterns used here), `\s` and line terminators, and
 * `Buffer.byteLength` (UTF-8).
 */
module JsText {

  // ---------------------------------------------------------------------
  // Prefixes, suffixes and occurrences
  // ---------------------------------------------------------------------

  predicate StartsWith(s: string, p: string) {
    |p| <= |s| && s[..|p|] == p
  }

  predicate EndsWith(s: string, p: string) {
    |p| <= |s| && s[|s| - |p|..] == p
  }

  /** `pat` occurs in `s` starting at index `j`. */
  predicate OccursAt(s: string, pat: string, j: int) {
    0 <= j && j + |pat| <= |s| && s[j..j + |pat|] == pat
  }

  /** `String.prototype.indexOf(pat, from)`: the first occurrence at or after `from`, or -1. */
  function IndexFrom(s: string, pat: string, from: nat): (r: int)
    ensures r == -1 || (from <= r && OccursAt(s, pat, r))
    ensures r == -1 ==> forall j :: from <= j ==> !OccursAt(s, pat, j)
    ensures r != -1 ==> forall j :: from <= j < r ==> !OccursAt(s, pat, j)
    decreases |s| - from
  {
    if from + |pat| > |s| then -1
    else if s[from..from + |pat|] == pat then from
    else IndexFrom(s, pat, from + 1)
  }

  /** `String.prototype.indexOf(pat)`. */
  function IndexOf(s: string, pat: string): (r: int)
    ensures r == -1 <==> forall j :: !OccursAt(s, pat, j)
    ensures r != -1 ==> OccursAt(s, pat, r) && forall j :: 0 <= j < r ==> !OccursAt(s, pat, j)
  {
    IndexFrom(s, pat, 0)
  }

  /** `s.indexOf(pat) !== -1`. */
  predicate Contains(s: string, pat: string) {
    IndexOf(s, pat) != -1
  }

  /** A string contains itself. */
  lemma ContainsSelf(s: string)
    ensures Contains(s, s)
  {
    assert OccursAt(s, s, 0) by {
      assert s[0..|s|] == s;
    }
  }

  /**
   * `s.replace(pat, rep)` with a string pattern: only the FIRST occurrence is
   * replaced (the replacement strings used here contain no `$`).
   */
  function ReplaceFirst(s: string, pat: string, rep: string): string {
    var i := IndexOf(s, pat);
    if i == -1 then s else s[..i] + rep + s[i + |pat|..]
  }

  /** Without an occurrence nothing changes. */
  lemma ReplaceFirstAbsent(s: string, pat: string, rep: string)
    requires !Contains(s, pat)
    ensures ReplaceFirst(s, pat, rep) == s
  {
  }

  /** The leftmost occurrence is the one replaced. */
  lemma ReplaceFirstAt(s: string, pat: string, rep: string, j: int)
    requires OccursAt(s, pat, j)
    requires forall k :: 0 <= k < j ==> !OccursAt(s, pat, k)
    ensures ReplaceFirst(s, pat, rep) == s[..j] + rep + s[j + |pat|..]
  {
    var i := IndexOf(s, pat);
    assert i != -1;
    assert !(i < j);
    assert !(j < i);
  }

  /** A pattern at the very start is replaced there. */
  lemma ReplaceFirstPrefix(pat: string, rest: string, rep: string)
    ensures ReplaceFirst(pat + rest, pat, rep) == rep + rest
  {
    var s := pat + rest;
    assert s[0..|pat|] == pat;
    ReplaceFirstAt(s, pat, rep, 0);
    assert s[|pat|..] == rest;
  }

  /** A pattern whose first character does not occur before it is replaced there. */
  lemma ReplaceFirstAfter(before: string, pat: string, rest: string, rep: string)
    requires |pat| > 0 && pat[0] !in before
    ensures ReplaceFirst(before + pat + rest, pat, rep) == before + rep + rest
  {
    var s := before + pat + rest;
    assert s[|before|..|before| + |pat|] == pat;
    forall k | 0 <= k < |before| ensures !OccursAt(s, pat, k) {
      assert s[k] == before[k];
    }
    ReplaceFirstAt(s, pat, rep, |before|);
    assert s[..|before|] == before;
    assert s[|before| + |pat|..] == rest;
  }

  // ---------------------------------------------------------------------
  // split(" ") and join(" ")
  // ---------------------------------------------------------------------

  /** `s.split(sep)` for a one-character separator: always at least one piece. */
  function Split(s: string, sep: char): (r: seq<string>)
    ensures |r| >= 1
    ensures forall k :: 0 <= k < |r| ==> sep !in r[k]
  {
    if s == [] then [""]
    else
      var rest := Split(s[1..], sep);
      if s[0] == sep then [""] + rest
      else [[s[0]] + rest[0]] + rest[1..]
  }

  /** `parts.join(sep)`. */
  function Join(parts: seq<string>, sep: string): string {
    if |parts| == 0 then ""
    else if |parts| == 1 then parts[0]
    else parts[0] + sep + Join(parts[1..], sep)
  }

  /** A character found in neither the parts nor the separator is not in the joined text. */
  lemma {:induction false} JoinAvoids(parts: seq<string>, sep: string, c: char)
    requires c !in sep
    requires forall k :: 0 <= k < |parts| ==> c !in parts[k]
    ensures c !in Join(parts, sep)
  {
    if |parts| > 1 {
      JoinAvoids(parts[1..], sep, c);
      assert Join(parts, sep) == parts[0] + sep + Join(parts[1..], sep);
    }
  }

  lemma {:induction false} JoinSplit(s: string, sep: char)
    ensures Join(Split(s, sep), [sep]) == s
  {
    if s != [] {
      JoinSplit(s[1..], sep);
      var rest := Split(s[1..], sep);
      if s[0] != sep && |rest| > 1 {
        assert Join(rest, [sep]) == rest[0] + [sep] + Join(rest[1..], [sep]);
      }
    }
  }

  lemma {:induction false} SplitJoin(parts: seq<string>, sep: char)
    requires |parts| >= 1
    requires forall k :: 0 <= k < |parts| ==> sep !in parts[k]
    ensures Split(Join(parts, [sep]), sep) == parts
  {
    if |parts| == 1 {
      SplitNoSeparator(parts[0], sep);
    } else {
      SplitJoin(parts[1..], sep);
      SplitPrefix(parts[0], Join(parts[1..], [sep]), sep);
    }
  }

  lemma {:induction false} SplitNoSeparator(s: string, sep: char)
    requires sep !in s
    ensures Split(s, sep) == [s]
  {
    if s != [] {
      SplitNoSeparator(s[1..], sep);
      assert s[0] != sep;
      assert [s[0]] + s[1..] == s;
    }
  }

  /** Splitting `p + sep + t` where `p` holds no separator yields `p` followed by the pieces of `t`. */
  lemma {:induction false} SplitPrefix(p: string, t: string, sep: char)
    requires sep !in p
    ensures Split(p + [sep] + t, sep) == [p] + Split(t, sep)
  {
    if p == [] {
      assert p + [sep] + t == [sep] + t;
      assert ([sep] + t)[1..] == t;
    } else {
      SplitPrefix(p[1..], t, sep);
      assert (p + [sep] + t)[1..] == p[1..] + [sep] + t;
      assert [p[0]] + p[1..] == p;
    }
  }

  // ---------------------------------------------------------------------
  // Number.prototype.toString(radix) and String(n)
  // ---------------------------------------------------------------------

  const Digits: string := "0123456789abcdef"

  predicate IsRadix(radix: int) { radix == 10 || radix == 16 }

  predicate IsDigitIn(c: char, radix: int)
    requires IsRadix(radix)
  {
    c in Digits[..radix]
  }

  /** The value of one digit; inverse of `Digits[d]`. */
  function DigitValue(c: char): (d: nat)
    ensures d < 16
    ensures c in Digits ==> Digits[d] == c
  {
    if '0' <= c <= '9' then c as int - '0' as int
    else if 'a' <= c <= 'f' then c as int - 'a' as int + 10
    else 0
  }

  /** `n.toString(radix)` for a non-negative integer: lower-case digits, no leading zeros. */
  function NatToString(n: nat, radix: int): (r: string)
    requires IsRadix(radix)
    ensures |r| >= 1
    ensures forall k :: 0 <= k < |r| ==> IsDigitIn(r[k], radix)
    ensures |r| > 1 ==> r[0] != '0'
  {
    if n < radix then [Digits[n]]
    else NatToString(n / radix, radix) + [Digits[n % radix]]
  }

  /** Reads digits back: the left inverse of `NatToString`. */
  function ParseNat(s: string, radix: int): nat
    requires IsRadix(radix)
  {
    if s == [] then 0
    else ParseNat(s[..|s| - 1], radix) * radix + DigitValue(s[|s| - 1])
  }

  lemma {:induction false} ParseNatToString(n: nat, radix: int)
    requires IsRadix(radix)
    ensures ParseNat(NatToString(n, radix), radix) == n
  {
    if n < radix {
      ParseNatSnoc([], Digits[n], radix);
      assert [] + [Digits[n]] == NatToString(n, radix);
      DigitValueOfDigit(n);
    } else {
      var q, d := n / radix, n % radix;
      ParseNatToString(q, radix);
      ParseNatSnoc(NatToString(q, radix), Digits[d], radix);
      DigitValueOfDigit(d);
    }
  }

  lemma DigitValueOfDigit(d: nat)
    requires d < 16
    ensures DigitValue(Digits[d]) == d
  {
  }

  lemma ParseNatSnoc(p: string, c: char, radix: int)
    requires IsRadix(radix)
    ensures ParseNat(p + [c], radix) == ParseNat(p, radix) * radix + DigitValue(c)
  {
    assert (p + [c])[..|p + [c]| - 1] == p;
  }

  /** `String(n)` for an integer of plain notation (JavaScript switches to exponent form from 1e21). */
  function IntToString(n: int): (r: string)
    ensures |r| >= 1
    ensures n < 0 <==> r[0] == '-'
  {
    if n < 0 then "-" + NatToString(-n, 10) else NatToString(n, 10)
  }

  /** `s.substr(0, n)`. */
  function Take(s: string, n: nat): (r: string)
    ensures |r| == if |s| <= n then |s| else n
    ensures forall k :: 0 <= k < |r| ==> r[k] == s[k]
  {
    if |s| <= n then s else s[..n]
  }

  // ---------------------------------------------------------------------
  // Characters as JavaScript regular expressions see them
  // ---------------------------------------------------------------------

  /** ASCII case folding of one character. */
  function LowerChar(c: char): char {
    if 'A' <= c <= 'Z' then (c as int + 32) as char else c
  }

  /** ASCII case folding: a non-Unicode `/i` regex never folds non-ASCII to ASCII. */
  function LowerAscii(s: string): (r: string)
    ensures |r| == |s|
  {
    if s == [] then [] else [LowerChar(s[0])] + LowerAscii(s[1..])
  }

  lemma {:induction false} LowerAsciiAt(s: string, k: nat)
    requires k < |s|
    ensures LowerAscii(s)[k] == LowerChar(s[k])
  {
    if k > 0 {
      LowerAsciiAt(s[1..], k - 1);
    }
  }

  /** What `.` refuses to match. */
  predicate IsLineTerminator(c: char) {
    c == '\n' || c == '\r' || c == '\U{2028}' || c == '\U{2029}'
  }

  /** The `\s` class of ECMAScript regular expressions. */
  predicate IsJsWhitespace(c: char) {
    c == '\t' || c == '\n' || c == '\U{000B}' || c == '\U{000C}' || c == '\r' || c == ' ' ||
    c == '\U{00A0}' || c == '\U{1680}' || ('\U{2000}' <= c <= '\U{200A}') ||
    c == '\U{2028}' || c == '\U{2029}' || c == '\U{202F}' || c == '\U{205F}' ||
    c == '\U{3000}' || c == '\U{FEFF}'
  }

  // ---------------------------------------------------------------------
  // Buffer.byteLength: UTF-8 length
  // ---------------------------------------------------------------------

  function Utf8Width(c: char): (w: nat)
    ensures 1 <= w <= 4
    ensures w == 1 <==> c < '\U{0080}'
  {
    if c < '\U{0080}' then 1
    else if c < '\U{0800}' then 2
    else if c < '\U{10000}' then 3
    else 4
  }

  /** `Buffer.byteLength(s)`: the number of bytes of the UTF-8 encoding of `s`. */
  function Utf8Length(s: string): nat {
    if s == [] then 0 else Utf8Width(s[0]) + Utf8Length(s[1..])
  }

  lemma {:induction false} Utf8LengthAppend(a: string, b: string)
    ensures Utf8Length(a + b) == Utf8Length(a) + Utf8Length(b)
  {
    if a == [] {
      assert a + b == b;
    } else {
      assert (a + b)[0] == a[0];
      assert (a + b)[1..] == a[1..] + b;
      Utf8LengthAppend(a[1..], b);
    }
  }

  lemma {:induction false} Utf8LengthBounds(s: string)
    ensures |s| <= Utf8Length(s) <= 4 * |s|
    ensures Utf8Length(s) == |s| <==> forall k :: 0 <= k < |s| ==> s[k] < '\U{0080}'
  {
    if s != [] {
      Utf8LengthBounds(s[1..]);
      assert forall k :: 1 <= k < |s| ==> s[k] == s[1..][k - 1];
    }
  }
}
