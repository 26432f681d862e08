/**
  The command-line driver's arithmetic: the partition of the file list into
  markup and script files, and the phrase and word counts it reports.
 */
module Stats {
  import opened Text
  import opened Results

  // ---- Word counts ------------------------------------------------------------

  /** `s.replace(/\s+/g, ' ')`: every maximal run of whitespace becomes one
      space. */
  function CollapseWhitespace(s: string): (r: string)
    ensures |r| <= |s|
  {
    if s == [] then []
    else if IsSpace(s[0]) then [' '] + CollapseWhitespace(s[LeadingSpaces(s)..])
    else [s[0]] + CollapseWhitespace(s[1..])
  }

  /** A collapsed string has no whitespace but single spaces. */
  predicate IsCollapsed(t: string) {
    && (forall i :: 0 <= i < |t| && IsSpace(t[i]) ==> t[i] == ' ')
    && (forall i :: 0 <= i < |t| - 1 ==> !(t[i] == ' ' && t[i + 1] == ' '))
  }

  lemma {:induction false} CollapseIsCollapsed(s: string)
    ensures IsCollapsed(CollapseWhitespace(s))
    ensures |s| > 0 && !IsSpace(s[0]) ==> CollapseWhitespace(s)[0] == s[0]
    ensures |s| > 0 && IsSpace(s[0]) ==> CollapseWhitespace(s)[0] == ' '
    decreases |s|
  {
    if s != [] {
      if IsSpace(s[0]) {
        var rest := s[LeadingSpaces(s)..];
        CollapseIsCollapsed(rest);
        var t := CollapseWhitespace(rest);
        assert CollapseWhitespace(s) == [' '] + t;
        assert |t| > 0 ==> t[0] != ' ' by {
          if |rest| > 0 {
            assert !IsSpace(rest[0]);
          }
        }
        assert forall i :: 1 <= i < |t| + 1 ==> ([' '] + t)[i] == t[i - 1];
      } else {
        CollapseIsCollapsed(s[1..]);
        var t := CollapseWhitespace(s[1..]);
        assert forall i :: 1 <= i < |t| + 1 ==> ([s[0]] + t)[i] == t[i - 1];
      }
    }
  }

  // A reference for what the collapse keeps: the characters other than white
  // space, and one space for every run of white space.

  /** Position `i` of `s` starts a run of white space. */
  predicate IsRunStart(s: string, i: nat)
    requires i < |s|
  {
    IsSpace(s[i]) && (i == 0 || !IsSpace(s[i - 1]))
  }

  /** The number of runs of white space that start in `s[lo..hi]`. */
  function RunStartsIn(s: string, lo: nat, hi: nat): nat
    requires lo <= hi <= |s|
    decreases hi - lo
  {
    if lo == hi then 0 else (if IsRunStart(s, lo) then 1 else 0) + RunStartsIn(s, lo + 1, hi)
  }

  /** The number of maximal runs of white space in `s`. */
  function RunStarts(s: string): nat {
    RunStartsIn(s, 0, |s|)
  }

  /** The characters of `s` that are not white space, in order. */
  function NonSpaces(s: string): string {
    if s == [] then [] else (if IsSpace(s[0]) then [] else [s[0]]) + NonSpaces(s[1..])
  }

  /** Past position `m`, the runs of `s` are those of `s[m..]`. */
  lemma {:induction false} RunStartsShift(s: string, m: nat, lo: nat, hi: nat)
    requires m < lo <= hi <= |s|
    ensures RunStartsIn(s, lo, hi) == RunStartsIn(s[m..], lo - m, hi - m)
    decreases hi - lo
  {
    if lo < hi {
      assert s[m..][lo - m] == s[lo] && s[m..][lo - m - 1] == s[lo - 1];
      RunStartsShift(s, m, lo + 1, hi);
    }
  }

  /** Inside a run of white space no new run starts. */
  lemma {:induction false} NoRunStartsInRun(s: string, lo: nat, hi: nat)
    requires 0 < lo <= hi <= |s|
    requires forall i :: lo - 1 <= i < hi ==> IsSpace(s[i])
    ensures RunStartsIn(s, lo, hi) == 0
    decreases hi - lo
  {
    if lo < hi {
      NoRunStartsInRun(s, lo + 1, hi);
    }
  }

  lemma {:induction false} RunStartsSplit(s: string, lo: nat, mid: nat, hi: nat)
    requires lo <= mid <= hi <= |s|
    ensures RunStartsIn(s, lo, hi) == RunStartsIn(s, lo, mid) + RunStartsIn(s, mid, hi)
    decreases mid - lo
  {
    if lo < mid {
      RunStartsSplit(s, lo + 1, mid, hi);
    }
  }

  /** A text starting with a character other than white space has the runs
      of its tail. */
  lemma RunStartsAfterWord(s: string)
    requires |s| > 0 && !IsSpace(s[0])
    ensures RunStarts(s) == RunStarts(s[1..])
  {
    var t := s[1..];
    assert RunStarts(s) == RunStartsIn(s, 1, |s|);
    if |s| > 1 {
      assert t[0] == s[1];
      assert IsRunStart(s, 1) == IsRunStart(t, 0);
      RunStartsShift(s, 1, 2, |s|);
      assert RunStartsIn(s, 1, |s|) == (if IsRunStart(t, 0) then 1 else 0) + RunStartsIn(t, 1, |t|);
    }
  }

  /** A text starting with white space has one run more than what follows
      that run. */
  lemma RunStartsAfterRun(s: string)
    requires |s| > 0 && IsSpace(s[0])
    ensures RunStarts(s) == 1 + RunStarts(s[LeadingSpaces(s)..])
  {
    var k := LeadingSpaces(s);
    NoRunStartsInRun(s, 1, k);
    RunStartsSplit(s, 1, k, |s|);
    if k < |s| {
      assert s[k..][0] == s[k];
      RunStartsShift(s, k, k + 1, |s|);
    }
  }

  /** The collapse writes one space for every run of white space. */
  lemma {:induction false} CollapseCountsRuns(s: string)
    ensures Count(CollapseWhitespace(s), ' ') == RunStarts(s)
    decreases |s|
  {
    if s != [] {
      var r := CollapseWhitespace(s);
      if IsSpace(s[0]) {
        CollapseCountsRuns(s[LeadingSpaces(s)..]);
        RunStartsAfterRun(s);
      } else {
        CollapseCountsRuns(s[1..]);
        RunStartsAfterWord(s);
      }
      assert r[1..] == CollapseWhitespace(if IsSpace(s[0]) then s[LeadingSpaces(s)..] else s[1..]);
    }
  }

  /** Dropping white space from the front keeps the other characters. */
  lemma {:induction false} NonSpacesAfterBlank(s: string, k: nat)
    requires k <= |s| && forall i :: 0 <= i < k ==> IsSpace(s[i])
    ensures NonSpaces(s) == NonSpaces(s[k..])
  {
    if k > 0 {
      NonSpacesAfterBlank(s[1..], k - 1);
      assert s[1..][k - 1..] == s[k..];
    }
  }

  /** The collapse keeps every character other than white space, in order. */
  lemma {:induction false} CollapseKeepsOthers(s: string)
    ensures NonSpaces(CollapseWhitespace(s)) == NonSpaces(s)
    decreases |s|
  {
    if s != [] {
      var r := CollapseWhitespace(s);
      if IsSpace(s[0]) {
        var rest := s[LeadingSpaces(s)..];
        CollapseKeepsOthers(rest);
        NonSpacesAfterBlank(s, LeadingSpaces(s));
        assert r[1..] == CollapseWhitespace(rest);
      } else {
        CollapseKeepsOthers(s[1..]);
        assert r[1..] == CollapseWhitespace(s[1..]);
      }
    }
  }

  /** The word count of one phrase. */
  function WordCount(phrase: string): (n: nat)
    ensures n >= 1
  {
    |SplitOnChar(CollapseWhitespace(phrase), ' ')|
  }

  /** A phrase counts one word more than it has runs of white space. */
  lemma WordCountIsRunsPlusOne(phrase: string)
    ensures WordCount(phrase) == RunStarts(phrase) + 1
  {
    CollapseCountsRuns(phrase);
  }

  /** Four runs of white space, at both ends and between the words, make
      five pieces. */
  lemma WordCountExample(phrase: string)
    requires phrase == " a  b\n\tc "
    ensures WordCount(phrase) == 5
  {
    WordCountIsRunsPlusOne(phrase);
    assert phrase[0] == ' ' && phrase[1] == 'a' && phrase[2] == ' ' && phrase[3] == ' ' && phrase[4] == 'b';
    assert phrase[5] == '\n' && phrase[6] == '\t' && phrase[7] == 'c' && phrase[8] == ' ' && |phrase| == 9;
    assert RunStartsIn(phrase, 8, 9) == 1;
    assert RunStartsIn(phrase, 7, 9) == 1;
    assert RunStartsIn(phrase, 6, 9) == 1;
    assert RunStartsIn(phrase, 5, 9) == 2;
    assert RunStartsIn(phrase, 4, 9) == 2;
    assert RunStartsIn(phrase, 3, 9) == 2;
    assert RunStartsIn(phrase, 2, 9) == 3;
    assert RunStartsIn(phrase, 1, 9) == 3;
  }

  /** A phrase with no whitespace is one word. */
  lemma {:induction false} CollapseWithoutSpace(s: string)
    requires forall i :: 0 <= i < |s| ==> !IsSpace(s[i])
    ensures CollapseWhitespace(s) == s
  {
    if s != [] {
      CollapseWithoutSpace(s[1..]);
    }
  }

  lemma {:induction false} CountAbsent(s: string, c: char)
    requires forall i :: 0 <= i < |s| ==> s[i] != c
    ensures Count(s, c) == 0
  {
    if s != [] {
      CountAbsent(s[1..], c);
    }
  }

  lemma OneWord(phrase: string)
    requires forall i :: 0 <= i < |phrase| ==> !IsSpace(phrase[i])
    ensures WordCount(phrase) == 1
  {
    CollapseWithoutSpace(phrase);
    CountAbsent(phrase, ' ');
  }

  /** One word more for every run of whitespace between two words. */
  lemma TwoWords(a: string, gap: string, b: string)
    requires forall i :: 0 <= i < |a| ==> !IsSpace(a[i])
    requires forall i :: 0 <= i < |b| ==> !IsSpace(b[i])
    requires |gap| > 0 && IsBlank(gap) && |b| > 0
    ensures WordCount(a + gap + b) == 2
    decreases |a|
  {
    CollapseGap(a, gap, b);
    assert a + [' '] + b == a + ([' '] + b);
    CountOneSpace(a, b);
  }

  lemma CountOneSpace(a: string, b: string)
    requires forall i :: 0 <= i < |a| ==> !IsSpace(a[i])
    requires forall i :: 0 <= i < |b| ==> !IsSpace(b[i])
    ensures Count(a + ([' '] + b), ' ') == 1
  {
    CountAbsent(a, ' ');
    CountAbsent(b, ' ');
    CountAppend(a, [' '] + b, ' ');
    assert ([' '] + b)[0] == ' ' && ([' '] + b)[1..] == b;
  }

  lemma {:induction false} CollapseGap(a: string, gap: string, b: string)
    requires forall i :: 0 <= i < |a| ==> !IsSpace(a[i])
    requires forall i :: 0 <= i < |b| ==> !IsSpace(b[i])
    requires |gap| > 0 && IsBlank(gap) && |b| > 0
    ensures CollapseWhitespace(a + gap + b) == a + [' '] + b
    decreases |a|
  {
    var s := a + gap + b;
    if a == [] {
      assert s == gap + b;
      assert s[0] == gap[0];
      LeadingSpacesOfGap(gap, b);
      assert s[|gap|..] == b;
      CollapseWithoutSpace(b);
    } else {
      assert s[0] == a[0];
      assert s[1..] == a[1..] + gap + b;
      CollapseGap(a[1..], gap, b);
      assert a + [' '] + b == [a[0]] + (a[1..] + [' '] + b);
    }
  }

  lemma LeadingSpacesOfGap(gap: string, b: string)
    requires IsBlank(gap) && |b| > 0 && !IsSpace(b[0])
    ensures LeadingSpaces(gap + b) == |gap|
  {
    var s := gap + b;
    var n := LeadingSpaces(s);
    assert forall i :: 0 <= i < |gap| ==> s[i] == gap[i];
    assert s[|gap|] == b[0];
    assert forall i :: 0 <= i < |gap| ==> IsSpace(s[i]);
  }

  lemma {:induction false} CountAppend(a: string, b: string, c: char)
    ensures Count(a + b, c) == Count(a, c) + Count(b, c)
  {
    if a == [] {
      assert a + b == b;
    } else {
      assert (a + b)[1..] == a[1..] + b;
      CountAppend(a[1..], b, c);
    }
  }

  // ---- The reported counts ----------------------------------------------------

  /** Every phrase of every file, each once. */
  function UnionOf(m: PhraseMap): set<string> {
    set path, phrase | path in m && phrase in m[path] :: phrase
  }

  /** The sum of the word counts of the phrases in `s`. */
  ghost function WordTotal(s: set<string>): nat {
    if s == {} then 0 else var x :| x in s; WordCount(x) + WordTotal(s - {x})
  }

  /** The sum does not depend on which phrase is taken first. */
  lemma WordTotalRemove(s: set<string>, y: string)
    requires y in s
    ensures WordTotal(s) == WordCount(y) + WordTotal(s - {y})
    decreases |s|
  {
    var x :| x in s && WordTotal(s) == WordCount(x) + WordTotal(s - {x});
    if x != y {
      WordTotalRemove(s - {x}, y);
      WordTotalRemove(s - {y}, x);
      assert s - {x} - {y} == s - {y} - {x};
    }
  }

  /** Each phrase has at least one word. */
  lemma {:induction false} WordTotalAtLeastSize(s: set<string>)
    ensures WordTotal(s) >= |s|
    decreases |s|
  {
    if s != {} {
      var x :| x in s;
      WordTotalRemove(s, x);
      WordTotalAtLeastSize(s - {x});
    }
  }

  /** Taking one more file into the union adds its phrases. */
  lemma UnionStep(m: PhraseMap, pending: set<string>, path: string)
    requires path in pending && path in m
    ensures UnionOf(m - (pending - {path})) == UnionOf(m - pending) + m[path]
  {
    var before := m - pending;
    var after := m - (pending - {path});
    forall x | x in UnionOf(after)
      ensures x in UnionOf(before) + m[path]
    {
      var p :| p in after && x in after[p];
      if p != path {
        assert p in before && before[p] == after[p];
      }
    }
    forall x | x in UnionOf(before) + m[path]
      ensures x in UnionOf(after)
    {
      if x in m[path] {
        assert path in after && after[path] == m[path];
      } else {
        var p :| p in before && x in before[p];
        assert p in after && after[p] == before[p];
      }
    }
  }

  lemma UnionOfNothing(m: PhraseMap)
    ensures UnionOf(m - m.Keys) == {}
  {
    assert m - m.Keys == map[];
  }

  /** The inner loop of `getStat`: each phrase of one file is added to the
      set. */
  method AddEachPhrase(uniquePhrases: set<string>, phrases: set<string>) returns (r: set<string>)
    ensures r == uniquePhrases + phrases
  {
    r := uniquePhrases;
    var remaining := phrases;
    while remaining != {}
      invariant remaining <= phrases
      invariant r == uniquePhrases + (phrases - remaining)
      decreases |remaining|
    {
      var phrase :| phrase in remaining;
      r := r + {phrase};
      remaining := remaining - {phrase};
    }
  }

  /** The first half of `getStat`: every phrase of every file goes into one
      set. */
  method CollectUnique(allPhrases: PhraseMap) returns (uniquePhrases: set<string>)
    ensures uniquePhrases == UnionOf(allPhrases)
  {
    uniquePhrases := {};
    var paths := allPhrases.Keys;
    UnionOfNothing(allPhrases);
    while paths != {}
      invariant paths <= allPhrases.Keys
      invariant uniquePhrases == UnionOf(allPhrases - paths)
      decreases |paths|
    {
      var path :| path in paths;
      uniquePhrases := AddEachPhrase(uniquePhrases, allPhrases[path]);
      UnionStep(allPhrases, paths, path);
      paths := paths - {path};
    }
    assert allPhrases - paths == allPhrases;
  }

  /** The second half of `getStat`: the `reduce` adding up word counts. */
  method SumWordCounts(phrases: set<string>) returns (wordCount: nat)
    ensures wordCount == WordTotal(phrases)
  {
    wordCount := 0;
    var rest := phrases;
    while rest != {}
      invariant rest <= phrases
      invariant wordCount + WordTotal(rest) == WordTotal(phrases)
      decreases |rest|
    {
      var phrase :| phrase in rest;
      WordTotalRemove(rest, phrase);
      wordCount := wordCount + WordCount(phrase);
      rest := rest - {phrase};
    }
  }

  /** `getStat`: the number of distinct phrases over all files and the sum
      of their word counts. */
  method GetStat(allPhrases: PhraseMap) returns (phraseCount: nat, wordCount: nat)
    ensures phraseCount == |UnionOf(allPhrases)|
    ensures wordCount == WordTotal(UnionOf(allPhrases))
  {
    var uniquePhrases := CollectUnique(allPhrases);
    phraseCount := |uniquePhrases|;
    wordCount := SumWordCounts(uniquePhrases);
  }

  /** The counts cannot disagree: there are at least as many words as
      phrases, and none of either for an empty result. */
  lemma StatBounds(allPhrases: PhraseMap)
    ensures WordTotal(UnionOf(allPhrases)) >= |UnionOf(allPhrases)|
    ensures allPhrases == map[] ==> |UnionOf(allPhrases)| == 0 && WordTotal(UnionOf(allPhrases)) == 0
  {
    WordTotalAtLeastSize(UnionOf(allPhrases));
  }

  /** A phrase found in several files is counted once: leaving out one of
      the files keeps it in the union. */
  lemma SharedPhraseCountsOnce(m: PhraseMap, a: string, b: string, phrase: string)
    requires a != b && a in m && b in m && phrase in m[a] && phrase in m[b]
    ensures phrase in UnionOf(m - {a})
    ensures UnionOf(m) == UnionOf(m - {a}) + (m[a] - {phrase})
  {
    assert b in m - {a} && (m - {a})[b] == m[b];
    UnionStep(m, {a}, a);
    assert m - ({a} - {a}) == m;
  }

  /** The totals merge the two results; when no file is in both, the phrases
      of the merge are those of either. */
  lemma UnionOfMerge(html: PhraseMap, js: PhraseMap)
    requires html.Keys !! js.Keys
    ensures UnionOf(html + js) == UnionOf(html) + UnionOf(js)
  {
    var both := html + js;
    forall x | x in UnionOf(both)
      ensures x in UnionOf(html) + UnionOf(js)
    {
      var p :| p in both && x in both[p];
      if p in js {
        assert both[p] == js[p];
      } else {
        assert p in html && both[p] == html[p];
      }
    }
    forall x | x in UnionOf(html) + UnionOf(js)
      ensures x in UnionOf(both)
    {
      if x in UnionOf(js) {
        var p :| p in js && x in js[p];
        assert p in both && both[p] == js[p];
      } else {
        var p :| p in html && x in html[p];
        assert p !in js;
        assert p in both && both[p] == html[p];
      }
    }
  }

  // ---- The partition ----------------------------------------------------------

  predicate IsHtml(entry: string) {
    EndsWith(entry, ".html")
  }

  /** The entries whose `IsHtml` equals `html`, in their order. */
  function Filter(entries: seq<string>, html: bool): seq<string> {
    if entries == [] then []
    else
      var last := entries[|entries| - 1];
      Filter(entries[..|entries| - 1], html) + (if IsHtml(last) == html then [last] else [])
  }

  function MapResolve(entries: seq<string>, resolve: string -> string): (r: seq<string>)
    ensures |r| == |entries| && forall i :: 0 <= i < |entries| ==> r[i] == resolve(entries[i])
  {
    seq(|entries|, i requires 0 <= i < |entries| => resolve(entries[i]))
  }

  /** The `reduce` over the file list: each entry, resolved against the
      source directory, is pushed onto the markup list when it ends in
      `.html` and onto the script list otherwise. */
  method PartitionEntries(entries: seq<string>, resolve: string -> string)
    returns (htmlEntries: seq<string>, jsEntries: seq<string>)
    ensures htmlEntries == MapResolve(Filter(entries, true), resolve)
    ensures jsEntries == MapResolve(Filter(entries, false), resolve)
  {
    htmlEntries, jsEntries := [], [];
    var i := 0;
    while i < |entries|
      invariant 0 <= i <= |entries|
      invariant htmlEntries == MapResolve(Filter(entries[..i], true), resolve)
      invariant jsEntries == MapResolve(Filter(entries[..i], false), resolve)
    {
      var entry := entries[i];
      assert entries[..i + 1][..i] == entries[..i];
      if IsHtml(entry) {
        htmlEntries := htmlEntries + [resolve(entry)];
      } else {
        jsEntries := jsEntries + [resolve(entry)];
      }
      i := i + 1;
    }
    assert entries[..i] == entries;
  }

  /** Every entry lands in exactly one list, and the two lists hold all of
      them: the multisets add up. */
  lemma {:induction false} PartitionIsComplete(entries: seq<string>)
    ensures multiset(Filter(entries, true)) + multiset(Filter(entries, false)) == multiset(entries)
  {
    if entries != [] {
      var init := entries[..|entries| - 1];
      PartitionIsComplete(init);
      PartitionStep(entries);
    }
  }

  lemma PartitionStep(entries: seq<string>)
    requires entries != []
    ensures var init := entries[..|entries| - 1];
      multiset(entries) == multiset(init) + multiset{entries[|entries| - 1]}
  {
    assert entries == entries[..|entries| - 1] + [entries[|entries| - 1]];
  }

  /** An entry is in the markup list exactly when it ends in `.html`, and in
      the script list exactly when it does not. */
  lemma {:induction false} FilterMeans(entries: seq<string>, html: bool, x: string)
    ensures x in Filter(entries, html) <==> x in entries && IsHtml(x) == html
  {
    if entries != [] {
      var init := entries[..|entries| - 1];
      FilterMeans(init, html, x);
      assert entries == init + [entries[|entries| - 1]];
    }
  }

  /** `picks` lists increasing positions of `entries` holding `out`. */
  predicate PicksOut(picks: seq<nat>, entries: seq<string>, out: seq<string>) {
    && |picks| == |out|
    && (forall k :: 0 <= k < |picks| ==> picks[k] < |entries| && entries[picks[k]] == out[k])
    && (forall k, l :: 0 <= k < l < |picks| ==> picks[k] < picks[l])
  }

  lemma PicksGrow(picks: seq<nat>, init: seq<string>, out: seq<string>, x: string)
    requires PicksOut(picks, init, out)
    ensures PicksOut(picks, init + [x], out)
    ensures PicksOut(picks + [|init|], init + [x], out + [x])
  {
    var entries := init + [x];
    assert forall k :: 0 <= k < |picks| ==> entries[picks[k]] == init[picks[k]];
  }

  /** The relative order of the entries is kept: the filtered list is a
      subsequence of the input, picked at increasing positions. */
  lemma {:induction false} FilterKeepsOrder(entries: seq<string>, html: bool)
    ensures exists picks: seq<nat> :: PicksOut(picks, entries, Filter(entries, html))
  {
    if entries == [] {
      assert PicksOut([], entries, Filter(entries, html));
    } else {
      var init := entries[..|entries| - 1];
      var last := entries[|entries| - 1];
      assert entries == init + [last];
      FilterKeepsOrder(init, html);
      var picks: seq<nat> :| PicksOut(picks, init, Filter(init, html));
      PicksGrow(picks, init, Filter(init, html), last);
      if IsHtml(last) == html {
        assert PicksOut(picks + [|init|], entries, Filter(entries, html));
      } else {
        assert PicksOut(picks, entries, Filter(entries, html));
      }
    }
  }
}
