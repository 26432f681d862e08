/**
  The aggregator shared by both extractors: the `Result` record of per-file
  phrase sets and `addPhraseToResult`, with the segmentation regex it applies
  before each piece is classified.
 */
module Results {
  import opened Wrappers
  import opened Text
  import opened Common

  // ---- Segmentation: `split(/(\s){3}|(\n)/g)` --------------------------------

  /** The length of the match of `(\s){3}|(\n)` that starts at `s[i]`, or 0
      when there is none. The first alternative is tried first. */
  function BreakAt(s: string, i: nat): (n: nat)
    requires i < |s|
    ensures n == 0 || n == 1 || n == 3
    ensures i + n <= |s|
  {
    if i + 3 <= |s| && IsSpace(s[i]) && IsSpace(s[i + 1]) && IsSpace(s[i + 2]) then 3
    else if s[i] == '\n' then 1
    else 0
  }

  /** No match of the separator starts anywhere in `t`. */
  predicate NoBreak(t: string) {
    forall j :: 0 <= j < |t| ==> BreakAt(t, j) == 0
  }

  /** The split of a string into the text between separator matches and the
      matches themselves. */
  datatype Token = Segment(text: string) | Separator(text: string)

  /** JavaScript's split loop: `p` is where the current segment starts and
      `q` is where the next match is tried. */
  function TokensFrom(s: string, p: nat, q: nat): seq<Token>
    requires p <= q <= |s|
    decreases |s| - q
  {
    if q == |s| then [Segment(s[p..])]
    else
      var n := BreakAt(s, q);
      if n == 0 then TokensFrom(s, p, q + 1)
      else [Segment(s[p..q]), Separator(s[q..q + n])] + TokensFrom(s, q + n, q + n)
  }

  function Tokens(s: string): seq<Token> {
    TokensFrom(s, 0, 0)
  }

  /** The texts of the tokens, put back together. */
  function Texts(tokens: seq<Token>): string {
    if tokens == [] then [] else tokens[0].text + Texts(tokens[1..])
  }

  /** The capture groups a separator contributes to the split result: group 1
      is the last of the three whitespace characters, group 2 the newline;
      the group that did not take part is `undefined`. */
  function Captures(m: string): seq<Option<string>> {
    if |m| == 3 then [Some([m[2]]), None] else [None, Some(m)]
  }

  function Pieces(tokens: seq<Token>): seq<Option<string>> {
    if tokens == [] then []
    else (match tokens[0]
          case Segment(t) => [Some(t)]
          case Separator(m) => Captures(m)) + Pieces(tokens[1..])
  }

  /** The array `s.split(/(\s){3}|(\n)/g)` returns. */
  function SplitOnBreaks(s: string): seq<Option<string>> {
    Pieces(Tokens(s))
  }

  /** Tokens alternate: segments at even positions, separators at odd ones,
      and the list starts and ends with a segment. Separators are non-empty
      matches of the pattern, segments hold no match. */
  predicate WellFormed(tokens: seq<Token>) {
    && |tokens| % 2 == 1
    && (forall i :: 0 <= i < |tokens| ==> (tokens[i].Segment? <==> i % 2 == 0))
    && (forall i :: 0 <= i < |tokens| && tokens[i].Separator? ==>
          |tokens[i].text| > 0 && BreakAt(tokens[i].text, 0) == |tokens[i].text| && IsBlank(tokens[i].text))
    && (forall i :: 0 <= i < |tokens| && tokens[i].Segment? ==> NoBreak(tokens[i].text))
  }

  /** A match found inside a slice is a match in the whole string. */
  lemma BreakInSlice(s: string, p: nat, q: nat, k: nat)
    requires p <= q <= |s| && k < q - p
    ensures BreakAt(s[p..q], k) != 0 ==> BreakAt(s, p + k) != 0
  {
    var t := s[p..q];
    assert t[k] == s[p + k];
    if k + 3 <= |t| {
      assert t[k + 1] == s[p + k + 1] && t[k + 2] == s[p + k + 2];
    }
  }

  lemma SegmentHasNoBreak(s: string, p: nat, q: nat)
    requires p <= q <= |s|
    requires forall j :: p <= j < q ==> BreakAt(s, j) == 0
    ensures NoBreak(s[p..q])
  {
    forall k | 0 <= k < q - p
      ensures BreakAt(s[p..q], k) == 0
    {
      BreakInSlice(s, p, q, k);
    }
  }

  lemma SeparatorIsMatch(s: string, q: nat)
    requires q < |s| && BreakAt(s, q) > 0
    ensures var m := s[q..q + BreakAt(s, q)]; BreakAt(m, 0) == |m| && IsBlank(m)
  {
    var m := s[q..q + BreakAt(s, q)];
    assert m[0] == s[q];
    if |m| == 3 {
      assert m[1] == s[q + 1] && m[2] == s[q + 2];
    }
  }

  lemma TokensAreWellFormed(s: string, p: nat, q: nat)
    requires p <= q <= |s|
    requires forall j :: p <= j < q ==> BreakAt(s, j) == 0
    ensures WellFormed(TokensFrom(s, p, q))
    ensures LeftmostSplit(s, p, TokensFrom(s, p, q))
  {
    TokensFromIsLeftmost(s, p, q);
    TokensFromWellFormed(s, p, q);
  }

  lemma {:induction false} TokensFromWellFormed(s: string, p: nat, q: nat)
    requires p <= q <= |s|
    requires forall j :: p <= j < q ==> BreakAt(s, j) == 0
    ensures WellFormed(TokensFrom(s, p, q))
    decreases |s| - q
  {
    if q == |s| {
      SegmentHasNoBreak(s, p, q);
      assert s[p..] == s[p..q];
    } else {
      var n := BreakAt(s, q);
      if n == 0 {
        TokensFromWellFormed(s, p, q + 1);
      } else {
        SegmentHasNoBreak(s, p, q);
        SeparatorIsMatch(s, q);
        TokensFromWellFormed(s, q + n, q + n);
        WellFormedCons(s[p..q], s[q..q + n], TokensFrom(s, q + n, q + n));
      }
    }
  }

  /** A segment and a separator in front of well-formed tokens keep them
      well formed. */
  lemma WellFormedCons(segment: string, separator: string, rest: seq<Token>)
    requires NoBreak(segment)
    requires |separator| > 0 && BreakAt(separator, 0) == |separator| && IsBlank(separator)
    requires WellFormed(rest)
    ensures WellFormed([Segment(segment), Separator(separator)] + rest)
  {
    var all := [Segment(segment), Separator(separator)] + rest;
    assert forall i :: 2 <= i < |all| ==> all[i] == rest[i - 2];
  }

  lemma {:induction false} TokensRebuild(s: string, p: nat, q: nat)
    requires p <= q <= |s|
    ensures Texts(TokensFrom(s, p, q)) == s[p..]
    decreases |s| - q
  {
    if q == |s| {
      assert Texts([Segment(s[p..])]) == s[p..] + Texts([]);
    } else {
      var n := BreakAt(s, q);
      if n == 0 {
        TokensRebuild(s, p, q + 1);
      } else {
        TokensRebuild(s, q + n, q + n);
        TextsCons(s, p, q, q + n, TokensFrom(s, q + n, q + n));
      }
    }
  }

  /** A segment `s[p..q]` and a separator `s[q..r]` in front of tokens
      spelling `s[r..]` spell `s[p..]`. */
  lemma TextsCons(s: string, p: nat, q: nat, r: nat, rest: seq<Token>)
    requires p <= q <= r <= |s| && Texts(rest) == s[r..]
    ensures Texts([Segment(s[p..q]), Separator(s[q..r])] + rest) == s[p..]
  {
    var all := [Segment(s[p..q]), Separator(s[q..r])] + rest;
    assert all[1..] == [Separator(s[q..r])] + rest;
    assert all[1..][1..] == rest;
    assert s[p..] == s[p..q] + (s[q..r] + s[r..]);
  }

  /** `tokens` is the split of `s[p..]` that the leftmost scan finds: a
      segment of the text at `p` inside which no match of the whole input
      starts, ending at the end of the input or where the next match
      starts; then that match as a separator, and the split of the rest. */
  predicate LeftmostSplit(s: string, p: nat, tokens: seq<Token>)
    requires p <= |s|
    decreases |tokens|
  {
    && |tokens| > 0 && tokens[0].Segment?
    && p + |tokens[0].text| <= |s|
    && tokens[0].text == s[p..p + |tokens[0].text|]
    && (forall j :: p <= j < p + |tokens[0].text| ==> BreakAt(s, j) == 0)
    && var q := p + |tokens[0].text|;
       if q == |s| then |tokens| == 1
       else
         && BreakAt(s, q) > 0 && |tokens| > 2
         && tokens[1] == Separator(s[q..q + BreakAt(s, q)])
         && LeftmostSplit(s, q + BreakAt(s, q), tokens[2..])
  }

  /** The last segment, running to the end of the input. */
  lemma LeftmostSingle(s: string, p: nat)
    requires p <= |s|
    requires forall j :: p <= j < |s| ==> BreakAt(s, j) == 0
    ensures LeftmostSplit(s, p, [Segment(s[p..])])
  {
    assert p + |s[p..]| == |s|;
  }

  /** A segment up to a match, the match, and the split of the rest. */
  lemma LeftmostCons(s: string, p: nat, q: nat, rest: seq<Token>)
    requires p <= q < |s| && BreakAt(s, q) > 0
    requires forall j :: p <= j < q ==> BreakAt(s, j) == 0
    requires LeftmostSplit(s, q + BreakAt(s, q), rest)
    ensures LeftmostSplit(s, p, [Segment(s[p..q]), Separator(s[q..q + BreakAt(s, q)])] + rest)
  {
    var tokens := [Segment(s[p..q]), Separator(s[q..q + BreakAt(s, q)])] + rest;
    assert tokens[2..] == rest;
    assert p + |tokens[0].text| == q;
  }

  /** The last segment of a leftmost split runs to the end of the input. */
  /** The first segment of a leftmost split holds no match. */
  lemma LeftmostFirst(s: string, p: nat, tokens: seq<Token>) returns (e: nat)
    requires p <= |s| && LeftmostSplit(s, p, tokens)
    ensures e == p + |tokens[0].text| <= |s|
    ensures forall j :: p <= j < e ==> BreakAt(s, j) == 0
  {
    e := p + |tokens[0].text|;
  }

  lemma LeftmostLast(s: string, p: nat, tokens: seq<Token>)
    requires p <= |s| && LeftmostSplit(s, p, tokens)
    requires p + |tokens[0].text| == |s|
    ensures tokens == [Segment(s[p..])]
  {
    assert tokens[0] == Segment(s[p..]);
  }

  /** A leftmost split that does not end with its first segment goes on
      with the match there and the split of what follows it. */
  lemma LeftmostNext(s: string, p: nat, tokens: seq<Token>) returns (q: nat, r: nat, rest: seq<Token>)
    requires p <= |s| && LeftmostSplit(s, p, tokens)
    requires p + |tokens[0].text| < |s|
    ensures q == p + |tokens[0].text| && q < r <= |s| && r == q + BreakAt(s, q)
    ensures forall j :: p <= j < q ==> BreakAt(s, j) == 0
    ensures tokens == [Segment(s[p..q]), Separator(s[q..r])] + rest
    ensures LeftmostSplit(s, r, rest)
  {
    q := p + |tokens[0].text|;
    r := q + BreakAt(s, q);
    rest := tokens[2..];
    assert tokens[0] == Segment(s[p..q]);
    assert tokens == [tokens[0], tokens[1]] + rest;
  }

  lemma {:induction false} TokensFromIsLeftmost(s: string, p: nat, q: nat)
    requires p <= q <= |s|
    requires forall j :: p <= j < q ==> BreakAt(s, j) == 0
    ensures LeftmostSplit(s, p, TokensFrom(s, p, q))
    decreases |s| - q
  {
    if q == |s| {
      LeftmostSingle(s, p);
    } else {
      var n := BreakAt(s, q);
      if n == 0 {
        TokensFromIsLeftmost(s, p, q + 1);
      } else {
        TokensFromIsLeftmost(s, q + n, q + n);
        LeftmostCons(s, p, q, TokensFrom(s, q + n, q + n));
      }
    }
  }

  /** A leftmost split of `s[p..]` is what the scan from `p` produces. */
  lemma {:induction false} LeftmostSplitIsTokens(s: string, p: nat, tokens: seq<Token>)
    requires p <= |s| && LeftmostSplit(s, p, tokens)
    ensures TokensFrom(s, p, p) == tokens
    decreases |tokens|
  {
    if p + |tokens[0].text| == |s| {
      LeftmostLastIsTokens(s, p, tokens);
    } else {
      var q, r, rest := LeftmostNext(s, p, tokens);
      LeftmostSplitIsTokens(s, r, rest);
      LeftmostStepIsTokens(s, p, q, r, tokens, rest);
    }
  }

  /** A leftmost split made of one segment is the scan's result. */
  lemma LeftmostLastIsTokens(s: string, p: nat, tokens: seq<Token>)
    requires p <= |s| && LeftmostSplit(s, p, tokens)
    requires p + |tokens[0].text| == |s|
    ensures TokensFrom(s, p, p) == tokens
  {
    var e := LeftmostFirst(s, p, tokens);
    ScanWithoutBreak(s, p, p, e);
    LeftmostLast(s, p, tokens);
    assert TokensFrom(s, p, e) == [Segment(s[p..])];
  }

  /** A segment free of matches, then the match at its end, in front of the
      scan's result from after that match, is the scan's result. */
  lemma LeftmostStepIsTokens(s: string, p: nat, q: nat, r: nat, tokens: seq<Token>, rest: seq<Token>)
    requires p <= q < r <= |s| && r == q + BreakAt(s, q)
    requires forall j :: p <= j < q ==> BreakAt(s, j) == 0
    requires tokens == [Segment(s[p..q]), Separator(s[q..r])] + rest
    requires TokensFrom(s, r, r) == rest
    ensures TokensFrom(s, p, p) == tokens
  {
    ScanWithoutBreak(s, p, p, q);
    TokensFromBreak(s, p, q, r);
  }

  /** The scan passes over positions where no match starts. */
  lemma {:induction false} ScanWithoutBreak(s: string, p: nat, q: nat, e: nat)
    requires p <= q <= e <= |s|
    requires forall j :: q <= j < e ==> BreakAt(s, j) == 0
    ensures TokensFrom(s, p, q) == TokensFrom(s, p, e)
    decreases e - q
  {
    if q < e {
      ScanWithoutBreak(s, p, q + 1, e);
      TokensFromStep(s, p, q);
    }
  }

  /** The scan meeting a match of length `r - q` at `q`. */
  lemma TokensFromBreak(s: string, p: nat, q: nat, r: nat)
    requires p <= q < r <= |s| && r == q + BreakAt(s, q)
    ensures TokensFrom(s, p, q) == [Segment(s[p..q]), Separator(s[q..r])] + TokensFrom(s, r, r)
  {
  }

  /** One step of the scan. */
  lemma TokensFromStep(s: string, p: nat, q: nat)
    requires p <= q < |s|
    ensures BreakAt(s, q) == 0 ==> TokensFrom(s, p, q) == TokensFrom(s, p, q + 1)
    ensures BreakAt(s, q) > 0 ==> (TokensFrom(s, p, q) ==
      [Segment(s[p..q]), Separator(s[q..q + BreakAt(s, q)])] + TokensFrom(s, q + BreakAt(s, q), q + BreakAt(s, q)))
  {
  }

  /** The segmentation loses nothing: the tokens spell out the input, and
      they are its leftmost split. */
  lemma TokensSpellInput(s: string)
    ensures Texts(Tokens(s)) == s
    ensures WellFormed(Tokens(s))
    ensures LeftmostSplit(s, 0, Tokens(s))
  {
    TokensRebuild(s, 0, 0);
    TokensAreWellFormed(s, 0, 0);
  }

  /** The leftmost split is unique: it is exactly the tokens of the scan. */
  lemma SplitIsUnique(s: string, tokens: seq<Token>)
    ensures LeftmostSplit(s, 0, tokens) <==> tokens == Tokens(s)
  {
    if LeftmostSplit(s, 0, tokens) {
      LeftmostSplitIsTokens(s, 0, tokens);
    }
    TokensFromIsLeftmost(s, 0, 0);
  }

  lemma {:induction false} TokensWithoutBreak(s: string, p: nat, q: nat)
    requires p <= q <= |s|
    requires forall j :: q <= j < |s| ==> BreakAt(s, j) == 0
    ensures TokensFrom(s, p, q) == [Segment(s[p..])]
    decreases |s| - q
  {
    if q < |s| {
      TokensWithoutBreak(s, p, q + 1);
    }
  }

  /** A string without a match is split into itself alone. */
  lemma SplitWithoutBreak(s: string)
    requires NoBreak(s)
    ensures SplitOnBreaks(s) == [Some(s)]
  {
    TokensWithoutBreak(s, 0, 0);
    assert Pieces([Segment(s)]) == [Some(s)] + Pieces([]);
  }

  /** Every piece of the split is `undefined`, a run of whitespace from a
      capture group, or the complete text of a segment. */
  lemma {:induction false} PiecesComeFromTokens(tokens: seq<Token>, k: nat)
    requires forall i :: 0 <= i < |tokens| && tokens[i].Separator? ==> |tokens[i].text| > 0 && IsBlank(tokens[i].text)
    requires k < |Pieces(tokens)|
    ensures Pieces(tokens)[k].Some? ==>
              IsBlank(Pieces(tokens)[k].value) ||
              exists i :: 0 <= i < |tokens| && tokens[i] == Segment(Pieces(tokens)[k].value)
    decreases |tokens|
  {
    var head := match tokens[0] case Segment(t) => [Some(t)] case Separator(m) => Captures(m);
    assert Pieces(tokens) == head + Pieces(tokens[1..]);
    if k >= |head| {
      PiecesComeFromTokens(tokens[1..], k - |head|);
      var piece := Pieces(tokens)[k];
      assert piece == Pieces(tokens[1..])[k - |head|];
      if piece.Some? && !IsBlank(piece.value) {
        var i :| 0 <= i < |tokens[1..]| && tokens[1..][i] == Segment(piece.value);
        assert tokens[i + 1] == Segment(piece.value);
      }
    } else if tokens[0].Separator? {
      var m := tokens[0].text;
      assert IsBlank(m);
      if |m| == 3 {
        assert IsSpace(m[2]);
      }
    }
  }

  // ---- Classifying the pieces -----------------------------------------------

  /** What `addPhraseToResult` does with one piece of the split. */
  datatype Verdict = Skip | Accept(phrase: string) | Ignore(text: string)

  /** An absent, empty or blank piece is skipped; any other piece is trimmed
      and sanitized, and lands among the phrases when it survives and among
      the ignored texts, trimmed, when it does not. */
  function Judge(piece: Option<string>): (v: Verdict)
    ensures v.Accept? ==> piece.Some? && Sanitize(Trim(piece.value)) == Some(v.phrase)
    ensures v.Ignore? ==> piece.Some? && v.text == Trim(piece.value) && v.text != [] && Sanitize(v.text).None?
    ensures v.Skip? <==> piece.None? || IsBlank(piece.value)
  {
    match piece
    case None => Skip
    case Some(t) =>
      TrimEmptyIffBlank(t);
      if t == [] || Trim(t) == [] then Skip
      else
        match Sanitize(Trim(t))
        case None => Ignore(Trim(t))
        case Some(p) => Accept(p)
  }

  /** The verdict on each piece, in order. */
  function Verdicts(pieces: seq<Option<string>>): (vs: seq<Verdict>) {
    seq(|pieces|, k requires 0 <= k < |pieces| => Judge(pieces[k]))
  }

  /** The phrase one verdict accepts, if any. */
  function AcceptedBy(v: Verdict): set<string> {
    if v.Accept? then {v.phrase} else {}
  }

  /** The text one verdict ignores, if any. */
  function IgnoredBy(v: Verdict): set<string> {
    if v.Ignore? then {v.text} else {}
  }

  /** The phrases accepted by `verdicts`. */
  function AcceptedIn(verdicts: seq<Verdict>): set<string> {
    if verdicts == [] then {}
    else AcceptedIn(verdicts[..|verdicts| - 1]) + AcceptedBy(verdicts[|verdicts| - 1])
  }

  /** The texts ignored by `verdicts`. */
  function IgnoredIn(verdicts: seq<Verdict>): set<string> {
    if verdicts == [] then {}
    else IgnoredIn(verdicts[..|verdicts| - 1]) + IgnoredBy(verdicts[|verdicts| - 1])
  }

  lemma {:induction false} AcceptedInMeans(verdicts: seq<Verdict>, x: string)
    ensures x in AcceptedIn(verdicts) <==> Accept(x) in verdicts
  {
    if verdicts != [] {
      var init := verdicts[..|verdicts| - 1];
      AcceptedInMeans(init, x);
      assert verdicts == init + [verdicts[|verdicts| - 1]];
    }
  }

  lemma {:induction false} IgnoredInMeans(verdicts: seq<Verdict>, x: string)
    ensures x in IgnoredIn(verdicts) <==> Ignore(x) in verdicts
  {
    if verdicts != [] {
      var init := verdicts[..|verdicts| - 1];
      IgnoredInMeans(init, x);
      assert verdicts == init + [verdicts[|verdicts| - 1]];
    }
  }

  /** One more verdict adds its own text and nothing else. */
  lemma VerdictStep(verdicts: seq<Verdict>, i: nat)
    requires i < |verdicts|
    ensures AcceptedIn(verdicts[..i + 1]) == AcceptedIn(verdicts[..i]) + AcceptedBy(verdicts[i])
    ensures IgnoredIn(verdicts[..i + 1]) == IgnoredIn(verdicts[..i]) + IgnoredBy(verdicts[i])
  {
    assert verdicts[..i + 1][..i] == verdicts[..i];
  }

  /** The pieces `addPhraseToResult` walks through, or none when the phrase
      is absent. */
  function PiecesOf(unsanitizedPhrase: Option<string>): seq<Option<string>> {
    match unsanitizedPhrase
    case None => []
    case Some(text) => SplitOnBreaks(Trim(text))
  }

  function AcceptedPhrases(unsanitizedPhrase: Option<string>): set<string> {
    AcceptedIn(Verdicts(PiecesOf(unsanitizedPhrase)))
  }

  function IgnoredTexts(unsanitizedPhrase: Option<string>): set<string> {
    IgnoredIn(Verdicts(PiecesOf(unsanitizedPhrase)))
  }

  // ---- The phrase maps ------------------------------------------------------

  /** A map from file path to the set of texts found in it. */
  type PhraseMap = map<string, set<string>>

  /** The set stored under `path`; a missing entry reads as empty. */
  function At(m: PhraseMap, path: string): set<string> {
    if path in m then m[path] else {}
  }

  /** Adds `texts` to the set under `path`; the entry is created lazily, so
      a path with nothing to add gets no entry. */
  function Extend(m: PhraseMap, path: string, texts: set<string>): (r: PhraseMap)
    ensures At(r, path) == At(m, path) + texts
    ensures forall other :: other != path ==> (other in r <==> other in m) && At(r, other) == At(m, other)
    ensures path in r <==> path in m || texts != {}
  {
    if texts == {} then m else m[path := At(m, path) + texts]
  }

  /** Two extensions under one path are one extension by their union. */
  lemma ExtendTwice(m: PhraseMap, path: string, a: set<string>, b: set<string>)
    ensures Extend(Extend(m, path, a), path, b) == Extend(m, path, a + b)
  {
    if a == {} {
      assert a + b == b;
    } else if b == {} {
      assert a + b == a;
    } else {
      var x := At(m, path) + a;
      assert At(m, path) + (a + b) == x + b;
      assert m[path := x][path := x + b] == m[path := x + b];
    }
  }

  /** The record both extractors fill, keyed by file path. */
  datatype Buckets = Buckets(phrases: PhraseMap, ignored: PhraseMap)

  /** The effect of `addPhraseToResult` on a `Result`, as a value. */
  function Add(b: Buckets, path: string, unsanitizedPhrase: Option<string>): Buckets {
    Buckets(Extend(b.phrases, path, AcceptedPhrases(unsanitizedPhrase)),
            Extend(b.ignored, path, IgnoredTexts(unsanitizedPhrase)))
  }

  /** `Result` with its two maps, updated in place. */
  class Result {
    var phrases: PhraseMap
    var ignored: PhraseMap

    constructor()
      ensures phrases == map[] && ignored == map[]
    {
      phrases := map[];
      ignored := map[];
    }

    function Snapshot(): Buckets
      reads this
    {
      Buckets(phrases, ignored)
    }

    /** Splits the trimmed phrase on runs of three whitespace characters and
        on newlines, and files every non-blank piece under `path`: what
        `Sanitize` keeps goes to `phrases`, the rest, trimmed, to `ignored`. */
    method AddPhraseToResult(path: string, unsanitizedPhrase: Option<string>)
      modifies this
      ensures phrases == Extend(old(phrases), path, AcceptedPhrases(unsanitizedPhrase))
      ensures ignored == Extend(old(ignored), path, IgnoredTexts(unsanitizedPhrase))
      ensures Snapshot() == Add(old(Snapshot()), path, unsanitizedPhrase)
    {
      if unsanitizedPhrase.None? {
        assert Verdicts([]) == [];
        return;
      }
      var pieces := SplitOnBreaks(Trim(unsanitizedPhrase.value));
      FilePieces(path, pieces);
    }

    /** The loop of `addPhraseToResult` over the pieces of one phrase. */
    method FilePieces(path: string, pieces: seq<Option<string>>)
      modifies this
      ensures phrases == Extend(old(phrases), path, AcceptedIn(Verdicts(pieces)))
      ensures ignored == Extend(old(ignored), path, IgnoredIn(Verdicts(pieces)))
    {
      ghost var verdicts := Verdicts(pieces);
      var i := 0;
      while i < |pieces|
        invariant 0 <= i <= |pieces|
        invariant phrases == Extend(old(phrases), path, AcceptedIn(verdicts[..i]))
        invariant ignored == Extend(old(ignored), path, IgnoredIn(verdicts[..i]))
      {
        var verdict := Judge(pieces[i]);
        assert verdict == verdicts[i];
        VerdictStep(verdicts, i);
        ExtendTwice(old(phrases), path, AcceptedIn(verdicts[..i]), AcceptedBy(verdict));
        ExtendTwice(old(ignored), path, IgnoredIn(verdicts[..i]), IgnoredBy(verdict));
        FileVerdict(path, verdict);
        i := i + 1;
      }
      assert verdicts[..i] == verdicts;
    }

    /** The body of that loop: an accepted phrase goes to `phrases`, an
        ignored text to `ignored`, a skipped piece nowhere. */
    method FileVerdict(path: string, verdict: Verdict)
      modifies this
      ensures phrases == Extend(old(phrases), path, AcceptedBy(verdict))
      ensures ignored == Extend(old(ignored), path, IgnoredBy(verdict))
    {
      match verdict {
        case Skip =>
        case Ignore(text) =>
          ignored := ignored[path := At(ignored, path) + {text}];
        case Accept(phrase) =>
          phrases := phrases[path := At(phrases, path) + {phrase}];
      }
    }
  }

  /** The record both extractors start from. */
  const Empty: Buckets := Buckets(map[], map[])

  /** `addPhraseToResult` called with each phrase of `phrases` in turn. */
  function AddAll(b: Buckets, path: string, phrases: seq<Option<string>>): Buckets {
    Fold(b, phrases, AddUnder(path))
  }

  /** `addPhraseToResult` for one path, as a step of a fold. */
  function AddUnder(path: string): (Buckets, Option<string>) -> Buckets {
    (c: Buckets, phrase: Option<string>) => Add(c, path, phrase)
  }

  /** `step` applied to each element of `xs` in turn, starting from `s`. */
  function Fold<S, X>(s: S, xs: seq<X>, step: (S, X) -> S): S {
    if xs == [] then s
    else step(Fold(s, xs[..|xs| - 1], step), xs[|xs| - 1])
  }

  /** Folding over two sequences one after the other is folding over their
      concatenation. */
  lemma {:induction false} FoldAppend<S, X>(s: S, xs: seq<X>, ys: seq<X>, step: (S, X) -> S)
    ensures Fold(s, xs + ys, step) == Fold(Fold(s, xs, step), ys, step)
    decreases |ys|
  {
    if ys == [] {
      assert xs + ys == xs;
    } else {
      var init := ys[..|ys| - 1];
      FoldAppend(s, xs, init, step);
      assert (xs + ys)[..|xs + ys| - 1] == xs + init;
      assert (xs + ys)[|xs + ys| - 1] == ys[|ys| - 1];
    }
  }

  /** The outcome of a run of an extractor over a list of files: the filled
      record, or the first file that could not be parsed, whose error is
      rethrown. */
  datatype Outcome = Done(buckets: Buckets) | ParseError(entry: string)

  // ---- Properties of the aggregation ---------------------------------------

  /** An absent phrase changes nothing. */
  lemma AddAbsent(b: Buckets, path: string)
    ensures Add(b, path, None) == b
  {
    assert Verdicts([]) == [];
  }

  /** Only the entries under `path` can change. */
  lemma AddOnlyTouchesPath(b: Buckets, path: string, unsanitizedPhrase: Option<string>, other: string)
    requires other != path
    ensures var r := Add(b, path, unsanitizedPhrase);
      && (other in r.phrases <==> other in b.phrases) && At(r.phrases, other) == At(b.phrases, other)
      && (other in r.ignored <==> other in b.ignored) && At(r.ignored, other) == At(b.ignored, other)
  {
  }

  /** Sets absorb repeats: adding the same phrase twice is adding it once. */
  lemma AddIdempotent(b: Buckets, path: string, unsanitizedPhrase: Option<string>)
    ensures Add(Add(b, path, unsanitizedPhrase), path, unsanitizedPhrase) == Add(b, path, unsanitizedPhrase)
  {
    var a := AcceptedPhrases(unsanitizedPhrase);
    var g := IgnoredTexts(unsanitizedPhrase);
    ExtendTwice(b.phrases, path, a, a);
    ExtendTwice(b.ignored, path, g, g);
    assert a + a == a && g + g == g;
  }

  /** The one-piece case: a text without a separator run is judged whole. */
  lemma SinglePieceVerdicts(text: string)
    requires NoBreak(Trim(text))
    ensures Verdicts(PiecesOf(Some(text))) == [Judge(Some(Trim(text)))]
  {
    SplitWithoutBreak(Trim(text));
  }

  lemma InSingle(v: Verdict)
    ensures AcceptedIn([v]) == (if v.Accept? then {v.phrase} else {})
    ensures IgnoredIn([v]) == (if v.Ignore? then {v.text} else {})
  {
    assert [v][..0] == [];
  }

  /** A trimmed, non-empty piece goes straight to `Sanitize`. */
  lemma JudgeTrimmed(t: string)
    requires IsTrimmed(t) && t != []
    ensures Sanitize(t).Some? ==> Judge(Some(t)) == Accept(Sanitize(t).value)
    ensures Sanitize(t).None? ==> Judge(Some(t)) == Ignore(t)
  {
    TrimOfTrimmed(t);
  }

  /** A phrase on one line without a run of three whitespace characters is
      filed once: under `phrases` as `Sanitize` returns it, or under
      `ignored`, trimmed, when `Sanitize` rejects it. */
  lemma AddSingleLine(text: string)
    requires NoBreak(Trim(text)) && !IsBlank(text)
    ensures Sanitize(Trim(text)).Some? ==>
      AcceptedPhrases(Some(text)) == {Sanitize(Trim(text)).value} && IgnoredTexts(Some(text)) == {}
    ensures Sanitize(Trim(text)).None? ==>
      AcceptedPhrases(Some(text)) == {} && IgnoredTexts(Some(text)) == {Trim(text)}
  {
    var t := Trim(text);
    SinglePieceVerdicts(text);
    TrimEmptyIffBlank(text);
    JudgeTrimmed(t);
    InSingle(Judge(Some(t)));
  }

  /** A blank phrase leaves no trace. */
  lemma AddBlank(text: string)
    requires IsBlank(text)
    ensures AcceptedPhrases(Some(text)) == {} && IgnoredTexts(Some(text)) == {}
  {
    TrimEmptyIffBlank(text);
    assert NoBreak(Trim(text));
    SinglePieceVerdicts(text);
    assert IsBlank(Trim(text));
    InSingle(Judge(Some(Trim(text))));
  }

  /** A piece of the split that is neither `undefined` nor blank is the
      whole text of a segment. */
  lemma NonBlankPieceIsSegment(s: string, k: nat)
    requires k < |SplitOnBreaks(s)| && SplitOnBreaks(s)[k].Some? && !IsBlank(SplitOnBreaks(s)[k].value)
    ensures exists i :: (0 <= i < |Tokens(s)| &&
      Tokens(s)[i] == Segment(SplitOnBreaks(s)[k].value) && NoBreak(Tokens(s)[i].text))
  {
    TokensSpellInput(s);
    PiecesComeFromTokens(Tokens(s), k);
  }

  /** Every accepted phrase is what `Sanitize` returns for a trimmed
      segment of the trimmed input: a stretch of text with no run of three
      whitespace characters and no newline in it. */
  lemma AcceptedComesFromSegment(text: string, x: string)
    requires x in AcceptedPhrases(Some(text))
    ensures exists i :: (0 <= i < |Tokens(Trim(text))| &&
      Tokens(Trim(text))[i].Segment? && NoBreak(Tokens(Trim(text))[i].text) &&
      Sanitize(Trim(Tokens(Trim(text))[i].text)) == Some(x))
  {
    var pieces := SplitOnBreaks(Trim(text));
    AcceptedInMeans(Verdicts(pieces), x);
    var k :| 0 <= k < |pieces| && Verdicts(pieces)[k] == Accept(x);
    var verdict := Judge(pieces[k]);
    assert verdict == Accept(x);
    NonBlankPieceIsSegment(Trim(text), k);
    var tokens := Tokens(Trim(text));
    var i :| 0 <= i < |tokens| && tokens[i] == Segment(pieces[k].value) && NoBreak(tokens[i].text);
  }

  /** Every ignored text is a trimmed, non-blank segment of the trimmed input
      that `Sanitize` rejects. */
  lemma IgnoredComesFromSegment(text: string, x: string)
    requires x in IgnoredTexts(Some(text))
    ensures x != [] && IsTrimmed(x) && Sanitize(x).None?
    ensures exists i :: (0 <= i < |Tokens(Trim(text))| &&
      Tokens(Trim(text))[i].Segment? && NoBreak(Tokens(Trim(text))[i].text) &&
      Trim(Tokens(Trim(text))[i].text) == x)
  {
    var pieces := SplitOnBreaks(Trim(text));
    IgnoredInMeans(Verdicts(pieces), x);
    var k :| 0 <= k < |pieces| && Verdicts(pieces)[k] == Ignore(x);
    var verdict := Judge(pieces[k]);
    assert verdict == Ignore(x);
    NonBlankPieceIsSegment(Trim(text), k);
    var tokens := Tokens(Trim(text));
    var i :| 0 <= i < |tokens| && tokens[i] == Segment(pieces[k].value) && NoBreak(tokens[i].text);
  }

  /** Every segment of a token list shows up, whole, among its pieces. */
  lemma {:induction false} SegmentInPieces(tokens: seq<Token>, i: nat)
    requires i < |tokens| && tokens[i].Segment?
    ensures Some(tokens[i].text) in Pieces(tokens)
    decreases |tokens|
  {
    var head := match tokens[0] case Segment(t) => [Some(t)] case Separator(m) => Captures(m);
    assert Pieces(tokens) == head + Pieces(tokens[1..]);
    if i == 0 {
      assert Pieces(tokens)[0] == Some(tokens[0].text);
    } else {
      assert tokens[1..][i - 1] == tokens[i];
      SegmentInPieces(tokens[1..], i - 1);
    }
  }

  /** Conversely, every non-blank segment of the trimmed input is filed:
      its sanitized form among the phrases, or its trimmed text among the
      ignored ones when `Sanitize` rejects it. */
  lemma SegmentIsFiled(text: string, i: nat)
    requires i < |Tokens(Trim(text))| && Tokens(Trim(text))[i].Segment?
    requires !IsBlank(Tokens(Trim(text))[i].text)
    ensures var t := Trim(Tokens(Trim(text))[i].text);
      Sanitize(t).Some? ==> Sanitize(t).value in AcceptedPhrases(Some(text))
    ensures var t := Trim(Tokens(Trim(text))[i].text);
      Sanitize(t).None? ==> t in IgnoredTexts(Some(text))
  {
    var segment := Tokens(Trim(text))[i].text;
    var pieces := SplitOnBreaks(Trim(text));
    SegmentInPieces(Tokens(Trim(text)), i);
    var k :| 0 <= k < |pieces| && pieces[k] == Some(segment);
    var verdict := Judge(Some(segment));
    assert Verdicts(pieces)[k] == verdict;
    match verdict {
      case Accept(x) =>
        AcceptedInMeans(Verdicts(pieces), x);
      case Ignore(x) =>
        IgnoredInMeans(Verdicts(pieces), x);
    }
  }

  /** Three spaces separate two phrases; the capture group contributes one
      space and one `undefined`. */
  lemma SplitExample()
    ensures SplitOnBreaks("a   b") == [Some("a"), Some(" "), None, Some("b")]
  {
    var s := "a   b";
    assert BreakAt(s, 0) == 0 && BreakAt(s, 1) == 3 && BreakAt(s, 4) == 0;
    assert TokensFrom(s, 4, 4) == [Segment("b")];
    assert s[0..1] == "a" && s[1..4] == "   ";
    assert Tokens(s) == [Segment("a"), Separator("   "), Segment("b")];
  }

  /** A run of `addPhraseToResult` calls under one path adds no other key. */
  lemma {:induction false} AddAllKeys(b: Buckets, path: string, phrases: seq<Option<string>>)
    ensures AddAll(b, path, phrases).phrases.Keys <= b.phrases.Keys + {path}
    ensures AddAll(b, path, phrases).ignored.Keys <= b.ignored.Keys + {path}
  {
    if phrases != [] {
      AddAllKeys(b, path, phrases[..|phrases| - 1]);
    }
  }

  /** Two runs of calls one after the other are one run. */
  lemma AddAllAppend(b: Buckets, path: string, xs: seq<Option<string>>, ys: seq<Option<string>>)
    ensures AddAll(b, path, xs + ys) == AddAll(AddAll(b, path, xs), path, ys)
  {
    FoldAppend(b, xs, ys, AddUnder(path));
  }

  lemma AddAllSnoc(b: Buckets, path: string, phrases: seq<Option<string>>, phrase: Option<string>)
    ensures AddAll(b, path, phrases + [phrase]) == Add(AddAll(b, path, phrases), path, phrase)
  {
    assert (phrases + [phrase])[..|phrases|] == phrases;
  }

  /** The union of `f` over the elements of `xs`. */
  function UnionOver<X, Y>(xs: seq<X>, f: X -> set<Y>): set<Y> {
    if xs == [] then {}
    else UnionOver(xs[..|xs| - 1], f) + f(xs[|xs| - 1])
  }

  lemma {:induction false} UnionOverMeans<X, Y>(xs: seq<X>, f: X -> set<Y>, y: Y)
    ensures y in UnionOver(xs, f) <==> exists i :: 0 <= i < |xs| && y in f(xs[i])
  {
    if xs != [] {
      var init := xs[..|xs| - 1];
      UnionOverMeans(init, f, y);
      assert forall i :: 0 <= i < |init| ==> init[i] == xs[i];
    }
  }

  /** The union depends only on which elements occur. */
  lemma UnionOverSameElements<X, Y>(xs: seq<X>, ys: seq<X>, f: X -> set<Y>)
    requires forall x :: x in xs <==> x in ys
    ensures UnionOver(xs, f) == UnionOver(ys, f)
  {
    forall y | y in UnionOver(xs, f) ensures y in UnionOver(ys, f) {
      UnionOverMeans(xs, f, y);
      UnionOverMeans(ys, f, y);
      var i :| 0 <= i < |xs| && y in f(xs[i]);
      assert xs[i] in ys;
      var j :| 0 <= j < |ys| && ys[j] == xs[i];
    }
    forall y | y in UnionOver(ys, f) ensures y in UnionOver(xs, f) {
      UnionOverMeans(xs, f, y);
      UnionOverMeans(ys, f, y);
      var j :| 0 <= j < |ys| && y in f(ys[j]);
      assert ys[j] in xs;
      var i :| 0 <= i < |xs| && xs[i] == ys[j];
    }
  }

  /** A run of calls under one path extends each map by the union of what
      the single calls would add. */
  lemma {:induction false} AddAllIsExtend(b: Buckets, path: string, phrases: seq<Option<string>>)
    ensures AddAll(b, path, phrases) ==
      Buckets(Extend(b.phrases, path, UnionOver(phrases, AcceptedPhrases)),
              Extend(b.ignored, path, UnionOver(phrases, IgnoredTexts)))
  {
    if phrases == [] {
      assert Extend(b.phrases, path, {}) == b.phrases && Extend(b.ignored, path, {}) == b.ignored;
    } else {
      var init := phrases[..|phrases| - 1];
      var last := phrases[|phrases| - 1];
      AddAllIsExtend(b, path, init);
      assert init + [last] == phrases;
      AddAllSnoc(b, path, init, last);
      ExtendTwice(b.phrases, path, UnionOver(init, AcceptedPhrases), AcceptedPhrases(last));
      ExtendTwice(b.ignored, path, UnionOver(init, IgnoredTexts), IgnoredTexts(last));
    }
  }

  /** A run of calls under one path depends only on which phrases are
      handed in: not on their order, nor on how often each one comes. */
  lemma AddAllDependsOnSet(b: Buckets, path: string, xs: seq<Option<string>>, ys: seq<Option<string>>)
    requires forall x :: x in xs <==> x in ys
    ensures AddAll(b, path, xs) == AddAll(b, path, ys)
  {
    UnionOverSameElements(xs, ys, AcceptedPhrases);
    UnionOverSameElements(xs, ys, IgnoredTexts);
    AddAllIsExtend(b, path, xs);
    AddAllIsExtend(b, path, ys);
  }

  // ---- A run over the files -------------------------------------------------

  /** The files in order: each is parsed and the phrases `phrasesOf` finds in
      it are filed under its own path; the first file that fails to parse
      ends the run. */
  function Run<T>(b: Buckets, entries: seq<string>, parse: string -> Option<T>,
                  phrasesOf: T -> seq<Option<string>>): Outcome
    decreases |entries|
  {
    if entries == [] then Done(b)
    else
      match parse(entries[0])
      case None => ParseError(entries[0])
      case Some(content) => Run(AddAll(b, entries[0], phrasesOf(content)), entries[1..], parse, phrasesOf)
  }

  /** Results are keyed by the files of the run and nothing else. */
  lemma {:induction false} RunKeys<T>(b: Buckets, entries: seq<string>, parse: string -> Option<T>,
                                      phrasesOf: T -> seq<Option<string>>)
    ensures Run(b, entries, parse, phrasesOf).Done? ==>
      Run(b, entries, parse, phrasesOf).buckets.phrases.Keys <= b.phrases.Keys + set e | e in entries
    ensures Run(b, entries, parse, phrasesOf).Done? ==>
      Run(b, entries, parse, phrasesOf).buckets.ignored.Keys <= b.ignored.Keys + set e | e in entries
    decreases |entries|
  {
    if entries != [] {
      var content := parse(entries[0]);
      if content.Some? {
        var phrases := phrasesOf(content.value);
        var next := AddAll(b, entries[0], phrases);
        assert Run(b, entries, parse, phrasesOf) == Run(next, entries[1..], parse, phrasesOf);
        AddAllKeys(b, entries[0], phrases);
        RunKeys(next, entries[1..], parse, phrasesOf);
        assert (set e | e in entries[1..]) + {entries[0]} == set e | e in entries;
      }
    }
  }

  /** A run fails exactly when some file does not parse, and then it names
      the first such file. */
  lemma {:induction false} RunFailsOnFirstUnparsable<T>(b: Buckets, entries: seq<string>, parse: string -> Option<T>,
                                                        phrasesOf: T -> seq<Option<string>>)
    ensures Run(b, entries, parse, phrasesOf).ParseError? <==>
      exists i :: 0 <= i < |entries| && parse(entries[i]).None?
    ensures Run(b, entries, parse, phrasesOf).ParseError? ==>
      exists i :: 0 <= i < |entries| && entries[i] == Run(b, entries, parse, phrasesOf).entry &&
        parse(entries[i]).None? && forall j :: 0 <= j < i ==> parse(entries[j]).Some?
    decreases |entries|
  {
    if entries != [] {
      var content := parse(entries[0]);
      if content.Some? {
        var next := AddAll(b, entries[0], phrasesOf(content.value));
        var rest := entries[1..];
        assert Run(b, entries, parse, phrasesOf) == Run(next, rest, parse, phrasesOf);
        RunFailsOnFirstUnparsable(next, rest, parse, phrasesOf);
        if exists i :: 0 <= i < |entries| && parse(entries[i]).None? {
          var i :| 0 <= i < |entries| && parse(entries[i]).None?;
          assert rest[i - 1] == entries[i];
        }
        if Run(next, rest, parse, phrasesOf).ParseError? {
          var i :| 0 <= i < |rest| && rest[i] == Run(next, rest, parse, phrasesOf).entry &&
            parse(rest[i]).None? && forall j :: 0 <= j < i ==> parse(rest[j]).Some?;
          assert entries[i + 1] == rest[i];
          forall j | 0 <= j < i + 1
            ensures parse(entries[j]).Some?
          {
            if j > 0 {
              assert entries[j] == rest[j - 1];
            }
          }
        }
      }
    }
  }
}
