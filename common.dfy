/**
  The classifier shared by both extractors: the list of localizable
  attributes and `sanitize`, which decides whether a text is a phrase.
 */
module Common {
  import opened Wrappers
  import opened Text

  /** The attributes whose values may hold user-facing text, in list order. */
  const LOCALIZABLE_ATTRIBUTES: seq<string> := [
    "accesskey", "abbr", "alt", "aria-label", "aria-valuetext",
    "download", "label", "placeholder", "title", "tooltip"
  ]

  // ---- Classifier -----------------------------------------------------------

  /** A character of the class `[.,?!:;'"`]`. */
  predicate IsTrailingMark(c: char) {
    c == '.' || c == ',' || c == '?' || c == '!' || c == ':' || c == ';' || c == '\'' || c == '"' || c == '`'
  }

  /** A character of the class `[_/=:\[\]]`, which marks variable names and paths. */
  predicate IsPathChar(c: char) {
    c == '_' || c == '/' || c == '=' || c == ':' || c == '[' || c == ']'
  }

  /** `text.replace(/[.,?!:;'"`]$/g, '')`: without the `m` flag `$` only
      matches at the very end, so at most the last character goes. */
  function StripTrailingMark(text: string): string {
    if text != [] && IsTrailingMark(text[|text| - 1]) then text[..|text| - 1] else text
  }

  /** The text every guard of `sanitize` inspects. */
  function Stripped(text: string): string {
    Trim(StripTrailingMark(text))
  }

  /** `text.split(' ').length === 1`: splitting on a space yields a single
      piece exactly when the text holds no space character. */
  predicate IsSingleWord(t: string) {
    ' ' !in t
  }

  /** The test as written, `split(' ')` giving one piece, is `IsSingleWord`. */
  lemma SingleWordIffOnePiece(t: string)
    ensures IsSingleWord(t) <==> |SplitOnChar(t, ' ')| == 1
  {
    CountZeroIff(t, ' ');
  }

  /** `sanitize`: the accepted (localizable) form of `text`, or `None` when
      the text is judged to be a code artefact. */
  function Sanitize(text: string): (r: Option<string>)
    ensures text == [] ==> r == None
    ensures r.Some? ==> r.value == Stripped(text) && Utf16Length(r.value) > 1
  {
    if text == [] then None
    else
      TrimIdempotent(StripTrailingMark(text));
      Guards(Stripped(text))
  }

  /** The checks `sanitize` applies to the stripped text, in source order. */
  function Guards(t: string): (r: Option<string>)
    ensures r.Some? ==> r.value == Trim(t) && Utf16Length(t) > 1
  {
    // Angular interpolations.
    if StartsWith(t, "{{") && EndsWith(t, "}}") && LastIndexOf(t, "{{") == 0 then None
    else if StartsWith(t, "{") && EndsWith(t, "}") && LastIndexOf(t, "{") == 0 then None
    // Template tags.
    else if StartsWith(t, "<%") && EndsWith(t, "%>") then None
    // Special single words.
    else if IsSingleWord(t) && (IsNumeric(t) || StartsWith(t, "#") || StartsWith(t, "$")) then None
    else if IsSingleWord(t) && ((exists i | 0 <= i < |t| :: IsPathChar(t[i])) || Includes(t, "--")) then None
    else if IsSingleWord(t) && ToLower(SliceFrom1(t)) != SliceFrom1(t) then None
    else if IsSingleWord(t) && (var dot := LastIndexOf(t, "."); dot >= 0 && dot < |t| - 1) then None
    else if Utf16Length(t) > 1 then Some(Trim(t))
    else None
  }

  // The guards of `sanitize`, restated without the string library calls.

  /** Starts with `{{`, ends with `}}`, and has no other `{{`. */
  predicate IsAngularInterpolation(t: string) {
    && |t| >= 2 && t[0] == '{' && t[1] == '{'
    && t[|t| - 2] == '}' && t[|t| - 1] == '}'
    && forall i :: 0 < i < |t| - 1 ==> !(t[i] == '{' && t[i + 1] == '{')
  }

  /** Starts with `{`, ends with `}`, and has no other `{`. */
  predicate IsBraceInterpolation(t: string) {
    && |t| >= 1 && t[0] == '{' && t[|t| - 1] == '}'
    && forall i :: 0 < i < |t| ==> t[i] != '{'
  }

  /** Starts with `<%` and ends with `%>`. */
  predicate IsTemplateTag(t: string) {
    && |t| >= 2 && t[0] == '<' && t[1] == '%'
    && t[|t| - 2] == '%' && t[|t| - 1] == '>'
  }

  /** Some character after the first is an upper-case letter. */
  predicate HasUpperAfterFirst(t: string) {
    exists i :: 1 <= i < |t| && 'A' <= t[i] <= 'Z'
  }

  /** The last `.` of the text exists and is not its final character. */
  predicate HasInnerLastDot(t: string) {
    exists i :: 0 <= i < |t| - 1 && t[i] == '.' && forall j :: i < j < |t| ==> t[j] != '.'
  }

  /** The single-word checks, in the terms of the predicates above. */
  predicate LooksLikeCode(t: string) {
    || IsNumeric(t)
    || (|t| > 0 && (t[0] == '#' || t[0] == '$'))
    || (exists i :: 0 <= i < |t| && IsPathChar(t[i]))
    || (exists i :: 0 <= i < |t| - 1 && t[i] == '-' && t[i + 1] == '-')
    || HasUpperAfterFirst(t)
    || HasInnerLastDot(t)
  }

  lemma TwoCharStartsWith(t: string, a: char, b: char)
    ensures StartsWith(t, [a, b]) <==> |t| >= 2 && t[0] == a && t[1] == b
  {
    if |t| >= 2 { assert t[..2] == [t[0], t[1]]; }
  }

  lemma TwoCharEndsWith(t: string, a: char, b: char)
    ensures EndsWith(t, [a, b]) <==> |t| >= 2 && t[|t| - 2] == a && t[|t| - 1] == b
  {
    if |t| >= 2 { assert t[|t| - 2..] == [t[|t| - 2], t[|t| - 1]]; }
  }

  lemma OccursAtTwo(t: string, a: char, b: char, i: int)
    ensures OccursAt(t, [a, b], i) <==> 0 <= i < |t| - 1 && t[i] == a && t[i + 1] == b
  {
    if 0 <= i < |t| - 1 { assert t[i..i + 2] == [t[i], t[i + 1]]; }
  }

  lemma OccursAtOne(t: string, a: char, i: int)
    ensures OccursAt(t, [a], i) <==> 0 <= i < |t| && t[i] == a
  {
    if 0 <= i < |t| { assert t[i..i + 1] == [t[i]]; }
  }

  lemma AngularGuard(t: string)
    ensures (StartsWith(t, "{{") && EndsWith(t, "}}") && LastIndexOf(t, "{{") == 0) <==> IsAngularInterpolation(t)
  {
    TwoCharStartsWith(t, '{', '{');
    TwoCharEndsWith(t, '}', '}');
    forall i ensures OccursAt(t, "{{", i) <==> 0 <= i < |t| - 1 && t[i] == '{' && t[i + 1] == '{' {
      OccursAtTwo(t, '{', '{', i);
    }
    if StartsWith(t, "{{") {
      assert OccursAt(t, "{{", 0);
    }
  }

  lemma BraceGuard(t: string)
    ensures (StartsWith(t, "{") && EndsWith(t, "}") && LastIndexOf(t, "{") == 0) <==> IsBraceInterpolation(t)
  {
    if |t| >= 1 {
      assert t[..1] == [t[0]];
      assert t[|t| - 1..] == [t[|t| - 1]];
    }
    forall i ensures OccursAt(t, "{", i) <==> 0 <= i < |t| && t[i] == '{' {
      OccursAtOne(t, '{', i);
    }
    if StartsWith(t, "{") {
      assert OccursAt(t, "{", 0);
    }
  }

  lemma DotGuard(t: string)
    ensures (var dot := LastIndexOf(t, "."); dot >= 0 && dot < |t| - 1) <==> HasInnerLastDot(t)
  {
    var dot := LastIndexOf(t, ".");
    forall i ensures OccursAt(t, ".", i) <==> 0 <= i < |t| && t[i] == '.' {
      OccursAtOne(t, '.', i);
    }
    if HasInnerLastDot(t) {
      var i :| 0 <= i < |t| - 1 && t[i] == '.' && forall j :: i < j < |t| ==> t[j] != '.';
      assert OccursAt(t, ".", i);
      assert dot == i;
    }
  }

  lemma DoubleHyphenGuard(t: string)
    ensures Includes(t, "--") <==> exists i :: 0 <= i < |t| - 1 && t[i] == '-' && t[i + 1] == '-'
  {
    if Includes(t, "--") {
      var i :| 0 <= i <= |t| - 2 && OccursAt(t, "--", i);
      OccursAtTwo(t, '-', '-', i);
    }
    if exists i :: 0 <= i < |t| - 1 && t[i] == '-' && t[i + 1] == '-' {
      var i :| 0 <= i < |t| - 1 && t[i] == '-' && t[i + 1] == '-';
      OccursAtTwo(t, '-', '-', i);
    }
  }

  lemma CamelCaseGuard(t: string)
    ensures ToLower(SliceFrom1(t)) != SliceFrom1(t) <==> HasUpperAfterFirst(t)
  {
    var tail := SliceFrom1(t);
    ToLowerUnchangedIff(tail);
    if HasUpperAfterFirst(t) {
      var i :| 1 <= i < |t| && 'A' <= t[i] <= 'Z';
      assert tail[i - 1] == t[i];
    }
  }

  lemma PrefixGuard(t: string)
    ensures (StartsWith(t, "#") || StartsWith(t, "$")) <==> (|t| > 0 && (t[0] == '#' || t[0] == '$'))
  {
    if |t| > 0 { assert t[..1] == [t[0]]; }
  }

  /** What `sanitize` accepts, guard by guard: a text is accepted exactly when
      its stripped form is longer than one UTF-16 code unit, is not wholly an
      interpolation or a template tag, and, when it holds no space, does not
      look like code. The result is then the stripped form itself. */
  lemma SanitizeAcceptsIff(text: string)
    ensures var t := Stripped(text);
      Sanitize(text).Some? <==>
        && IsLongerThanOneUnit(t)
        && !IsAngularInterpolation(t)
        && !IsBraceInterpolation(t)
        && !IsTemplateTag(t)
        && (IsSingleWord(t) ==> !LooksLikeCode(t))
  {
    if text == [] {
      assert StripTrailingMark(text) == [];
    } else {
      GuardsAcceptIff(Stripped(text));
    }
  }

  lemma GuardsAcceptIff(t: string)
    ensures Guards(t).Some? <==>
        && IsLongerThanOneUnit(t)
        && !IsAngularInterpolation(t)
        && !IsBraceInterpolation(t)
        && !IsTemplateTag(t)
        && (IsSingleWord(t) ==> !LooksLikeCode(t))
  {
    Utf16LengthAboveOne(t);
    AngularGuard(t);
    BraceGuard(t);
    TwoCharStartsWith(t, '<', '%');
    TwoCharEndsWith(t, '%', '>');
    PrefixGuard(t);
    DoubleHyphenGuard(t);
    CamelCaseGuard(t);
    DotGuard(t);
  }

  /** A text holding a space skips every single-word check: it is accepted
      exactly when it is not wholly an interpolation or template tag and its
      stripped form is longer than one UTF-16 code unit. */
  lemma SanitizeMultiWord(text: string)
    requires ' ' in Stripped(text)
    ensures var t := Stripped(text);
      Sanitize(text).Some? <==>
        IsLongerThanOneUnit(t) && !IsAngularInterpolation(t) && !IsBraceInterpolation(t) && !IsTemplateTag(t)
  {
    SanitizeAcceptsIff(text);
  }

  /** A single word that looks like code is always rejected. */
  lemma SanitizeRejectsCodeWords(text: string)
    requires IsSingleWord(Stripped(text)) && LooksLikeCode(Stripped(text))
    ensures Sanitize(text) == None
  {
    SanitizeAcceptsIff(text);
  }

  /** Stripping the trailing mark keeps a prefix of the text. */
  lemma StripIsPrefix(text: string)
    ensures var u := StripTrailingMark(text); u == text[..|u|] && |text| - 1 <= |u|
  {
  }

  /** The stripped text is a contiguous piece of the input, starting after
      its leading white space. */
  lemma StrippedIsSlice(text: string)
    ensures var v, u := Stripped(text), StripTrailingMark(text);
      var start := LeadingSpaces(u);
      && start + |v| <= |text|
      && v == text[start..start + |v|]
      && IsBlank(text[..start])
  {
    var u := StripTrailingMark(text);
    StripIsPrefix(text);
    TrimIsSlice(u);
    var start := LeadingSpaces(u);
    SliceOfPrefix(text, u, 0, start);
    SliceOfPrefix(text, u, start, start + |Trim(u)|);
    assert text[..start] == text[0..start];
  }

  lemma SliceOfPrefix(text: string, u: string, i: nat, j: nat)
    requires |u| <= |text| && u == text[..|u|] && i <= j <= |u|
    ensures text[i..j] == u[i..j]
  {
    assert forall k :: i <= k < j ==> text[k] == u[k];
  }

  /** An accepted phrase is a contiguous piece of the input: at most one
      trailing mark and the white space around the rest are removed, and no
      other character changes. */
  lemma SanitizeKeepsCharacters(text: string)
    requires Sanitize(text).Some?
    ensures var v, u := Sanitize(text).value, StripTrailingMark(text);
      var start := LeadingSpaces(u);
      && start + |v| <= |text|
      && v == text[start..start + |v|]
      && IsBlank(text[..start])
  {
    StrippedIsSlice(text);
  }

  /** A text that is trimmed and does not end in a mark is its own stripped form. */
  lemma StrippedUnmarked(text: string)
    requires IsTrimmed(text) && (text == [] || !IsTrailingMark(text[|text| - 1]))
    ensures Stripped(text) == text
  {
    TrimOfTrimmed(text);
  }

  /** Exactly one trailing mark is removed, even when marks repeat. */
  lemma StrippedMarked(text: string)
    requires |text| > 0 && IsTrailingMark(text[|text| - 1])
    requires IsTrimmed(text[..|text| - 1])
    ensures Stripped(text) == text[..|text| - 1]
  {
    TrimOfTrimmed(text[..|text| - 1]);
  }

  /** A word made of a leading letter other than `I`, then lower-case
      letters, single hyphens and dots, whose last dot (if any) ends it. */
  predicate IsPlainWord(t: string) {
    && |t| > 1
    && ('a' <= t[0] <= 'z' || 'A' <= t[0] <= 'Z') && t[0] != 'I'
    && (forall i :: 1 <= i < |t| ==> 'a' <= t[i] <= 'z' || t[i] == '-' || t[i] == '.')
    && (forall i :: 0 <= i < |t| - 1 ==> t[i] != '-' || t[i + 1] != '-')
    && !HasInnerLastDot(t)
  }

  lemma PlainWordHasNoCodeCharacter(t: string)
    requires IsPlainWord(t)
    ensures IsSingleWord(t)
    ensures !(t[0] == '#' || t[0] == '$')
    ensures forall i :: 0 <= i < |t| ==> !IsPathChar(t[i])
    ensures !HasUpperAfterFirst(t)
  {
  }

  lemma PlainWordIsNotCode(t: string)
    requires IsTrimmed(t) && IsPlainWord(t)
    ensures IsSingleWord(t) && !LooksLikeCode(t)
  {
    PlainWordHasNoCodeCharacter(t);
    NonNumericStartIsNotNumeric(t);
  }

  /** A plain word is accepted as it is. */
  lemma SanitizeAcceptsPlainWord(text: string)
    requires IsPlainWord(Stripped(text))
    ensures Sanitize(text) == Some(Stripped(text))
  {
    PlainWordIsNotCode(Stripped(text));
    SanitizeAcceptsIff(text);
  }

  // Examples: each proof names the guard that decides.

  lemma SanitizeEmptyExample()
    ensures Sanitize("") == None
  {
  }

  /** A single character outside the Basic Multilingual Plane is accepted:
      its `length` counts two code units. */
  lemma SanitizeAstralExample(text: string)
    requires text == "\U{1F600}"
    ensures |text| == 1
    ensures Sanitize(text) == Some(text)
  {
    assert !IsTrailingMark(text[0]) && !IsSpace(text[0]);
    assert StripTrailingMark(text) == text;
    TrimOfTrimmed(text);
    NonNumericStartIsNotNumeric(text);
    Utf16LengthAboveOne(text);
    assert IsSingleWord(text) && !LooksLikeCode(text);
    SanitizeAcceptsIff(text);
  }

  /** `OK` is rejected: lower-casing its tail `K` changes it. */
  lemma SanitizeAllCapsExample(text: string)
    requires text == "OK"
    ensures Sanitize(text) == None
  {
    StrippedUnmarked(text);
    assert HasUpperAfterFirst(text) by { assert 'A' <= text[1] <= 'Z'; }
    SanitizeRejectsCodeWords(text);
  }

  lemma SanitizeCapitalisedWordExample(text: string)
    requires text == "Hello"
    ensures Sanitize(text) == Some("Hello")
  {
    StrippedUnmarked(text);
    SanitizeAcceptsPlainWord(text);
  }

  lemma SanitizeCamelCaseExample(text: string)
    requires text == "myVariable"
    ensures Sanitize(text) == None
  {
    StrippedUnmarked(text);
    assert HasUpperAfterFirst(text) by { assert 'A' <= text[2] <= 'Z'; }
    SanitizeRejectsCodeWords(text);
  }

  /** Exactly one trailing mark is removed. */
  lemma SanitizeTrailingDotExample(text: string)
    requires text == "Hello world."
    ensures Sanitize(text) == Some("Hello world")
  {
    StrippedMarked(text);
    assert text[..11] == "Hello world";
    assert "Hello world"[5] == ' ';
    SanitizeMultiWord(text);
  }

  lemma SanitizeDoubleTrailingDotExample(text: string)
    requires text == "Hello world.."
    ensures Sanitize(text) == Some("Hello world.")
  {
    StrippedMarked(text);
    assert text[..12] == "Hello world.";
    assert "Hello world."[5] == ' ';
    SanitizeMultiWord(text);
  }

  lemma SanitizeExclamationExample(text: string)
    requires text == "Saved!"
    ensures Sanitize(text) == Some("Saved")
  {
    StrippedMarked(text);
    assert text[..5] == "Saved";
    SanitizeAcceptsPlainWord(text);
  }

  /** A text that is wholly an interpolation is rejected. */
  lemma SanitizeInterpolationExample(text: string)
    requires text == "{{name}}"
    ensures Sanitize(text) == None
  {
    StrippedUnmarked(text);
    assert IsAngularInterpolation(text);
    SanitizeAcceptsIff(text);
  }

  /** Prose around an interpolation is kept. */
  lemma SanitizeProseWithInterpolationExample(text: string)
    requires text == "Hello {{name}}"
    ensures Sanitize(text) == Some("Hello {{name}}")
  {
    StrippedUnmarked(text);
    assert text[0] == 'H' && text[5] == ' ';
    SanitizeMultiWord(text);
    assert Sanitize(text).Some?;
  }

  /** An underscore marks an identifier. */
  lemma SanitizeUnderscoreExample(text: string)
    requires text == "foo_bar"
    ensures Sanitize(text) == None
  {
    StrippedUnmarked(text);
    assert IsPathChar(text[3]);
    SanitizeRejectsCodeWords(text);
  }

  /** A single hyphen does not. */
  lemma SanitizeHyphenExample(text: string)
    requires text == "foo-bar"
    ensures Sanitize(text) == Some("foo-bar")
  {
    StrippedUnmarked(text);
    assert forall i :: 0 <= i < |text| ==> text[i] != '.';
    assert forall i :: 0 <= i < |text| - 1 ==> text[i] != '-' || text[i + 1] != '-';
    SanitizeAcceptsPlainWord(text);
  }

  /** A number is not a phrase. */
  lemma SanitizeNumberExample(text: string)
    requires text == "42"
    ensures Sanitize(text) == None
  {
    StrippedUnmarked(text);
    assert Trim(text) == text by { TrimOfTrimmed(text); }
    assert IndexOfExponentMark(text) == 2 && IndexOfDot(text) == 2;
    assert text[..2] == text;
    assert IsNumeric(text);
    SanitizeRejectsCodeWords(text);
  }

  /** Nor is a colour or an identifier marked with `#`. */
  lemma SanitizeHashExample(text: string)
    requires text == "#fff"
    ensures Sanitize(text) == None
  {
    StrippedUnmarked(text);
    SanitizeRejectsCodeWords(text);
  }

  /** A last `.` before the end marks a property path. */
  lemma SanitizePropertyPathExample(text: string)
    requires text == "a.b.c"
    ensures Sanitize(text) == None
  {
    StrippedUnmarked(text);
    assert HasInnerLastDot(text) by { assert text[3] == '.' && text[4] != '.'; }
    SanitizeRejectsCodeWords(text);
  }

  /** The dot rule is judged after the trailing mark is gone, so a single
      final `.` does not save a property path. */
  lemma SanitizeTrailingDotPathExample(text: string)
    requires text == "a.b."
    ensures Sanitize(text) == None
  {
    StrippedMarked(text);
    assert text[..3] == "a.b";
    assert HasInnerLastDot("a.b") by { assert "a.b"[1] == '.' && "a.b"[2] != '.'; }
    SanitizeRejectsCodeWords(text);
  }

  /** Two final dots leave a last dot at the end, which is accepted. */
  lemma SanitizeDoubleDotPathExample(text: string)
    requires text == "a.b.."
    ensures Sanitize(text) == Some("a.b.")
  {
    StrippedMarked(text);
    assert text[..4] == "a.b.";
    SanitizeAcceptsPlainWord(text);
  }

  lemma SanitizeEllipsisExample(text: string)
    requires text == "Wait..."
    ensures Sanitize(text) == Some("Wait..")
  {
    StrippedMarked(text);
    assert text[..6] == "Wait..";
    SanitizeAcceptsPlainWord(text);
  }
}
