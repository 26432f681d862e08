/**
  The JavaScript string primitives the extractor relies on (`trim`,
  `startsWith`, `endsWith`, `includes`, `lastIndexOf`, `toLowerCase`,
  `Number(...)` coercion), stated over `seq<char>` for the ASCII character set.
 */
module Text {

  /** A character of the ASCII part of JavaScript's white space and line
      terminator classes: what `trim` removes and what `\s` matches. These
      are the space and the five characters from tab (9) to carriage
      return (13): tab, line feed, vertical tab, form feed, carriage return. */
  predicate IsSpace(c: char) {
    c == ' ' || '\t' <= c <= '\r'
  }

  /** True when `s` has no white space at either end (what `trim` produces). */
  predicate IsTrimmed(s: string) {
    s == [] || (!IsSpace(s[0]) && !IsSpace(s[|s| - 1]))
  }

  /** True when every character of `s` is white space. */
  predicate IsBlank(s: string) {
    forall i :: 0 <= i < |s| ==> IsSpace(s[i])
  }

  /** The number of white space characters `s` starts with. */
  function LeadingSpaces(s: string): (n: nat)
    ensures n <= |s|
    ensures forall i :: 0 <= i < n ==> IsSpace(s[i])
    ensures n < |s| ==> !IsSpace(s[n])
  {
    if s != [] && IsSpace(s[0]) then 1 + LeadingSpaces(s[1..]) else 0
  }

  /** The number of white space characters `s` ends with. */
  function TrailingSpaces(s: string): (n: nat)
    ensures n <= |s|
    ensures forall i :: |s| - n <= i < |s| ==> IsSpace(s[i])
    ensures n < |s| ==> !IsSpace(s[|s| - n - 1])
  {
    if s != [] && IsSpace(s[|s| - 1]) then 1 + TrailingSpaces(s[..|s| - 1]) else 0
  }

  /** `s` with its leading white space removed. */
  function TrimStart(s: string): string {
    s[LeadingSpaces(s)..]
  }

  /** `s` with its trailing white space removed. */
  function TrimEnd(s: string): string {
    s[..|s| - TrailingSpaces(s)]
  }

  /** JavaScript's `String.prototype.trim`. */
  function Trim(s: string): (r: string)
    ensures IsTrimmed(r)
  {
    TrimEnd(TrimStart(s))
  }

  /** `r` is the run of `s` that starts at position `start`. */
  predicate IsSliceAt(r: string, s: string, start: nat) {
    start + |r| <= |s| && r == s[start..start + |r|]
  }

  /** Trimming keeps the contiguous run of `s` that starts after its
      leading white space, and removes only white space around it. */
  lemma TrimIsSlice(s: string)
    ensures IsSliceAt(Trim(s), s, LeadingSpaces(s))
    ensures IsBlank(s[..LeadingSpaces(s)])
    ensures IsBlank(s[LeadingSpaces(s) + |Trim(s)|..])
  {
    var start, n := TrimBounds(s);
    BetweenBlanks(s, start, n, Trim(s));
  }

  /** `trim` drops `start` leading and `n` trailing characters, all blank. */
  lemma TrimBounds(s: string) returns (start: nat, n: nat)
    ensures start == LeadingSpaces(s)
    ensures start <= |s| && n <= |s| - start
    ensures Trim(s) == s[start..][..|s| - start - n]
    ensures forall i :: 0 <= i < start ==> IsSpace(s[i])
    ensures forall i :: |s| - start - n <= i < |s| - start ==> IsSpace(s[start..][i])
  {
    start := LeadingSpaces(s);
    n := TrailingSpaces(s[start..]);
  }

  /** The part of `s` between a blank prefix of length `start` and a blank
      suffix of length `n`. */
  lemma BetweenBlanks(s: string, start: nat, n: nat, r: string)
    requires start <= |s| && n <= |s| - start
    requires r == s[start..][..|s| - start - n]
    requires forall i :: 0 <= i < start ==> IsSpace(s[i])
    requires forall i :: |s| - start - n <= i < |s| - start ==> IsSpace(s[start..][i])
    ensures IsSliceAt(r, s, start)
    ensures IsBlank(s[..start]) && IsBlank(s[start + |r|..])
  {
    assert forall i :: 0 <= i < start ==> s[..start][i] == s[i];
    var tail := s[start + |r|..];
    forall j | 0 <= j < |tail| ensures IsSpace(tail[j]) {
      assert tail[j] == s[start..][|s| - start - n + j];
    }
  }

  /** A text that is already trimmed is left alone by `trim`. */
  lemma TrimOfTrimmed(s: string)
    requires IsTrimmed(s)
    ensures Trim(s) == s
  {
  }

  /** `trim` is idempotent. */
  lemma TrimIdempotent(s: string)
    ensures Trim(Trim(s)) == Trim(s)
  {
    TrimOfTrimmed(Trim(s));
  }

  /** `trim` yields the empty string exactly for blank texts. */
  lemma TrimEmptyIffBlank(s: string)
    ensures Trim(s) == [] <==> IsBlank(s)
  {
    var t := TrimStart(s);
    if !IsBlank(s) {
      var k :| 0 <= k < |s| && !IsSpace(s[k]);
      assert |t| > 0 && !IsSpace(t[0]);
    }
  }

  /** `s.startsWith(p)`. */
  predicate StartsWith(s: string, p: string) {
    |p| <= |s| && s[..|p|] == p
  }

  /** `s.endsWith(p)`. */
  predicate EndsWith(s: string, p: string) {
    |p| <= |s| && s[|s| - |p|..] == p
  }

  /** `sub` occurs in `s` at index `i`. */
  predicate OccursAt(s: string, sub: string, i: int) {
    0 <= i && i + |sub| <= |s| && s[i..i + |sub|] == sub
  }

  /** `s.includes(sub)`. */
  predicate Includes(s: string, sub: string) {
    exists i | 0 <= i <= |s| - |sub| :: OccursAt(s, sub, i)
  }

  /** `s.lastIndexOf(sub)`: the largest index at which `sub` occurs, or -1. */
  function LastIndexOf(s: string, sub: string): (r: int)
    ensures r == -1 || OccursAt(s, sub, r)
    ensures forall i :: r < i ==> !OccursAt(s, sub, i)
  {
    LastIndexAtOrBefore(s, sub, |s| - |sub|)
  }

  /** The largest index `<= i` at which `sub` occurs in `s`, or -1. */
  function LastIndexAtOrBefore(s: string, sub: string, i: int): (r: int)
    requires i <= |s| - |sub|
    ensures r == -1 || (r <= i && OccursAt(s, sub, r))
    ensures forall j :: r < j <= i ==> !OccursAt(s, sub, j)
    decreases i + 1
  {
    if i < 0 then -1
    else if s[i..i + |sub|] == sub then i
    else LastIndexAtOrBefore(s, sub, i - 1)
  }

  /** ASCII `toLowerCase` of one character. */
  function LowerChar(c: char): char {
    if 'A' <= c <= 'Z' then (c as int + 32) as char else c
  }

  /** ASCII `toLowerCase`. */
  function ToLower(s: string): (r: string)
    ensures |r| == |s|
    ensures forall i :: 0 <= i < |s| ==> r[i] == LowerChar(s[i])
  {
    if s == [] then [] else [LowerChar(s[0])] + ToLower(s[1..])
  }

  /** Lower-casing leaves a text unchanged exactly when it has no ASCII
      upper-case letter. */
  lemma ToLowerUnchangedIff(s: string)
    ensures ToLower(s) == s <==> forall i :: 0 <= i < |s| ==> !('A' <= s[i] <= 'Z')
  {
    if ToLower(s) == s {
      forall i | 0 <= i < |s| ensures !('A' <= s[i] <= 'Z') {
        assert ToLower(s)[i] == s[i];
      }
    }
  }

  /** `s.slice(1)`. */
  function SliceFrom1(s: string): string {
    if s == [] then [] else s[1..]
  }

  /** `strings.join('')`. */
  function Concat(strings: seq<string>): string {
    if strings == [] then [] else strings[0] + Concat(strings[1..])
  }

  lemma ConcatAppend(a: seq<string>, b: seq<string>)
    ensures Concat(a + b) == Concat(a) + Concat(b)
  {
    if a != [] {
      assert (a + b)[0] == a[0];
      assert (a + b)[1..] == a[1..] + b;
      ConcatAppend(a[1..], b);
    } else {
      assert a + b == b;
    }
  }

  // ---- `Number(text)` coercion, as used by `isNaN` -------------------------

  predicate IsDigit(c: char) { '0' <= c <= '9' }

  predicate IsHexDigit(c: char) { IsDigit(c) || 'a' <= c <= 'f' || 'A' <= c <= 'F' }

  /** One or more decimal digits. */
  predicate IsDigits(s: string) {
    |s| > 0 && forall i :: 0 <= i < |s| ==> IsDigit(s[i])
  }

  /** `0x…`, `0o…` or `0b…` with at least one digit of that base (no sign). */
  predicate IsNonDecimalIntegerLiteral(s: string) {
    && |s| >= 3 && s[0] == '0'
    && (|| ((s[1] == 'x' || s[1] == 'X') && forall i :: 2 <= i < |s| ==> IsHexDigit(s[i]))
        || ((s[1] == 'o' || s[1] == 'O') && forall i :: 2 <= i < |s| ==> '0' <= s[i] <= '7')
        || ((s[1] == 'b' || s[1] == 'B') && forall i :: 2 <= i < |s| ==> s[i] == '0' || s[i] == '1'))
  }

  predicate IsSign(c: char) { c == '+' || c == '-' }

  predicate IsExponentMark(c: char) { c == 'e' || c == 'E' }

  /** An exponent mark, an optional sign, and digits. */
  predicate IsExponentPart(s: string) {
    |s| >= 2 && IsExponentMark(s[0]) && (IsDigits(s[1..]) || (IsSign(s[1]) && IsDigits(s[2..])))
  }

  /** The index of the first exponent mark of `s`, or `|s|`. */
  function IndexOfExponentMark(s: string): (r: nat)
    ensures r <= |s|
    ensures forall i :: 0 <= i < r ==> !IsExponentMark(s[i])
    ensures r < |s| ==> IsExponentMark(s[r])
  {
    if s == [] then 0 else if IsExponentMark(s[0]) then 0 else 1 + IndexOfExponentMark(s[1..])
  }

  /** The index of the first `.` of `s`, or `|s|`. */
  function IndexOfDot(s: string): (r: nat)
    ensures r <= |s|
    ensures forall i :: 0 <= i < r ==> s[i] != '.'
    ensures r < |s| ==> s[r] == '.'
  {
    if s == [] then 0 else if s[0] == '.' then 0 else 1 + IndexOfDot(s[1..])
  }

  /** Digits with an optional `.` and optional fraction digits; at least one
      digit on one side of the point. */
  predicate IsMantissa(m: string) {
    var d := IndexOfDot(m);
    if d == |m| then IsDigits(m)
    else
      var whole, fraction := m[..d], m[d + 1..];
      && (whole == [] || IsDigits(whole))
      && (fraction == [] || IsDigits(fraction))
      && (whole != [] || fraction != [])
  }

  /** ECMAScript's StrUnsignedDecimalLiteral: `Infinity`, or a mantissa with
      an optional exponent. */
  predicate IsUnsignedDecimalLiteral(s: string) {
    || s == "Infinity"
    || (var e := IndexOfExponentMark(s);
        IsMantissa(s[..e]) && (e == |s| || IsExponentPart(s[e..])))
  }

  /** ECMAScript's StrDecimalLiteral: an optionally signed unsigned literal. */
  predicate IsDecimalLiteral(s: string) {
    IsUnsignedDecimalLiteral(s) || (|s| > 0 && IsSign(s[0]) && IsUnsignedDecimalLiteral(s[1..]))
  }

  /** `!isNaN(s)`: `Number(s)` is a number. The text is trimmed first and a
      blank text converts to 0. */
  predicate IsNumeric(s: string) {
    var t := Trim(s);
    t == [] || IsDecimalLiteral(t) || IsNonDecimalIntegerLiteral(t)
  }

  /** `Number` trims first: white space around a text does not change
      whether it is numeric. */
  lemma NumericIgnoresPadding(s: string)
    ensures IsNumeric(s) <==> IsNumeric(Trim(s))
  {
    TrimIdempotent(s);
  }

  /** A character no numeric literal starts with: not a digit, a `.`, a
      sign, or the `I` of `Infinity`. */
  predicate CannotStartNumber(c: char) {
    !IsDigit(c) && c != '.' && !IsSign(c) && c != 'I'
  }

  lemma NonNumericStartIsNotUnsignedDecimal(t: string)
    requires |t| > 0 && CannotStartNumber(t[0])
    ensures !IsUnsignedDecimalLiteral(t)
  {
    var e := IndexOfExponentMark(t);
    if e > 0 {
      var m := t[..e];
      assert m[0] == t[0];
      var d := IndexOfDot(m);
      assert d > 0;
      assert m[..d][0] == t[0];
    }
  }

  lemma NonNumericStartIsNotLiteral(t: string)
    requires |t| > 0 && CannotStartNumber(t[0])
    ensures !IsDecimalLiteral(t) && !IsNonDecimalIntegerLiteral(t)
  {
    NonNumericStartIsNotUnsignedDecimal(t);
  }

  /** A trimmed text starting with such a character is not numeric, so
      `isNaN` holds for it. */
  lemma NonNumericStartIsNotNumeric(t: string)
    requires IsTrimmed(t) && |t| > 0 && CannotStartNumber(t[0])
    ensures !IsNumeric(t)
  {
    NonNumericStartIsNotLiteral(t);
    TrimOfTrimmed(t);
  }

  /** Surrounding white space is ignored. */
  lemma PaddedIntegerIsNumeric(text: string)
    requires text == " 42 "
    ensures IsNumeric(text)
  {
    assert LeadingSpaces(text) == 1 && TrailingSpaces(text) == 1;
    var t := Trim(text);
    assert t == "42";
    assert t[0] == '4' && t[1] == '2';
    assert IndexOfExponentMark(t) == 2 && IndexOfDot(t) == 2;
    assert t[..2] == t;
  }

  /** A signed decimal with a fraction and an exponent. */
  lemma SignedExponentIsNumeric(text: string)
    requires text == "-1.5e3"
    ensures IsNumeric(text)
  {
    TrimOfTrimmed(text);
    var u := text[1..];
    assert u == "1.5e3";
    assert u[0] == '1' && u[1] == '.' && u[2] == '5' && u[3] == 'e';
    assert IndexOfExponentMark(u) == 3;
    var m := u[..3];
    assert m == "1.5";
    assert m[0] == '1' && m[1] == '.';
    assert IndexOfDot(m) == 1;
    assert m[..1] == "1" && m[2..] == "5" && u[3..] == "e3" && u[3..][1..] == "3";
  }

  lemma HexIsNumeric(text: string)
    requires text == "0x1F"
    ensures IsNumeric(text)
  {
    TrimOfTrimmed(text);
  }

  lemma InfinityIsNumeric(text: string)
    requires text == "Infinity"
    ensures IsNumeric(text)
  {
    TrimOfTrimmed(text);
  }

  /** Two points make no number. */
  lemma TwoPointsIsNotNumeric(text: string)
    requires text == "1.2.3"
    ensures !IsNumeric(text)
  {
    TrimOfTrimmed(text);
    TwoPointsIsNotUnsigned(text);
    assert text[0] == '1' && !IsSign(text[0]) && !IsNonDecimalIntegerLiteral(text);
  }

  lemma TwoPointsIsNotUnsigned(text: string)
    requires text == "1.2.3"
    ensures !IsUnsignedDecimalLiteral(text)
  {
    assert |text| == 5 && text != "Infinity";
    assert text[0] == '1' && text[1] == '.' && text[2] == '2' && text[3] == '.' && text[4] == '3';
    assert IndexOfExponentMark(text) == 5 && text[..5] == text;
    assert IndexOfDot(text) == 1;
    var fraction := text[2..];
    assert fraction[1] == '.';
    assert !IsDigits(fraction);
  }

  // ---- `split` on one character --------------------------------------------

  /** The number of occurrences of `c` in `s`. */
  function Count(s: string, c: char): nat {
    if s == [] then 0 else (if s[0] == c then 1 else 0) + Count(s[1..], c)
  }

  /** `s.split(c)` for a one-character separator: the pieces between the
      occurrences of `c`. */
  function SplitOnChar(s: string, c: char): (pieces: seq<string>)
    ensures |pieces| == Count(s, c) + 1
  {
    if s == [] then [[]]
    else
      var rest := SplitOnChar(s[1..], c);
      if s[0] == c then [[]] + rest else [[s[0]] + rest[0]] + rest[1..]
  }

  /** `pieces.join(c)`: the pieces with `c` between each two. */
  function JoinWith(pieces: seq<string>, c: char): string
    requires |pieces| > 0
  {
    if |pieces| == 1 then pieces[0] else pieces[0] + [c] + JoinWith(pieces[1..], c)
  }

  /** Splitting on `c` loses nothing: joining the pieces with `c` gives `s`
      back, and no piece holds `c`. */
  lemma {:induction false} SplitOnCharJoins(s: string, c: char)
    ensures JoinWith(SplitOnChar(s, c), c) == s
    ensures forall i :: 0 <= i < |SplitOnChar(s, c)| ==> c !in SplitOnChar(s, c)[i]
  {
    if s != [] {
      var rest := SplitOnChar(s[1..], c);
      SplitOnCharJoins(s[1..], c);
      if s[0] == c {
        assert ([[]] + rest)[1..] == rest;
      } else {
        var pieces := [[s[0]] + rest[0]] + rest[1..];
        assert pieces[1..] == rest[1..];
        if |rest| > 1 {
          assert JoinWith(rest, c) == rest[0] + [c] + JoinWith(rest[1..], c);
        }
        assert JoinWith(pieces, c) == [s[0]] + JoinWith(rest, c);
        assert s == [s[0]] + s[1..];
        forall i | 0 <= i < |pieces| ensures c !in pieces[i] {
          if i > 0 {
            assert pieces[i] == rest[i];
          }
        }
      }
    }
  }

  /** No occurrence of `c` exactly when `c` is not in `s`. */
  lemma {:induction false} CountZeroIff(s: string, c: char)
    ensures Count(s, c) == 0 <==> c !in s
  {
    if s != [] {
      CountZeroIff(s[1..], c);
      assert s == [s[0]] + s[1..];
    }
  }

  // ---- `length`: UTF-16 code units -----------------------------------------

  /** A character outside the Basic Multilingual Plane: UTF-16 stores it as a
      surrogate pair. */
  predicate IsAstral(c: char) {
    c as int >= 0x1_0000
  }

  /** `s.length`: the number of UTF-16 code units of `s`. */
  function Utf16Length(s: string): nat {
    if s == [] then 0
    else Utf16Length(s[..|s| - 1]) + (if IsAstral(s[|s| - 1]) then 2 else 1)
  }

  lemma {:induction false} Utf16LengthBounds(s: string)
    ensures |s| <= Utf16Length(s) <= 2 * |s|
  {
    if s != [] {
      Utf16LengthBounds(s[..|s| - 1]);
    }
  }

  /** More than one code unit: two characters or more, or one astral one. */
  predicate IsLongerThanOneUnit(s: string) {
    |s| > 1 || (|s| == 1 && IsAstral(s[0]))
  }

  lemma Utf16LengthAboveOne(s: string)
    ensures Utf16Length(s) > 1 <==> IsLongerThanOneUnit(s)
  {
    Utf16LengthBounds(s);
    if |s| == 1 {
      assert s[..0] == [];
    }
  }
}
