# kbn-i18n phrase extractor, modelled in Dafny

The extractor scans a Kibana source tree for user-facing text. It handles
two kinds of file:

- **Markup** (`.html`): every element offers its `textContent` and the
  values of ten localizable attributes (`title`, `placeholder`, `alt`, …).
- **Script** (`.js`): the visitor proposes string literals, template
  literals, `+` chains of literals, JSX text and string values of
  localizable JSX attributes.

Each candidate goes to `addPhraseToResult`:

- It trims the candidate, then splits it on runs of three whitespace
  characters and on newlines.
- It hands every non-blank piece, trimmed, to the classifier `sanitize`.
- What `sanitize` keeps is filed under the file's path in `phrases`.
  What it rejects is filed, trimmed, in `ignored`.

The driver splits the file list into markup files and the rest. It runs
both extractors and reports, for each result and for their merge, the
number of distinct phrases and the total number of words.

This project models each of these parts and proves properties of them:

| file | module | models |
|---|---|---|
| `wrappers.dfy` | `Wrappers` | `Option` |
| `text.dfy` | `Text` | the JavaScript string operations the code calls: `trim`, `startsWith`, `endsWith`, `includes`, `lastIndexOf`, `toLowerCase`, `join`, and the `Number(...)` coercion behind `isNaN` |
| `common.dfy` | `Common` | `LOCALIZABLE_ATTRIBUTES` and `sanitize` |
| `results.dfy` | `Results` | the split regex `/(\s){3}\|(\n)/g` with JavaScript `split` semantics; the `Result` record as a class; `addPhraseToResult` as a method; a run of an extractor over the file list |
| `script.dfy` | `Script` | the syntax tree, `validateBinaryExpression`, `getBinaryExpressionValue`, the `enter` visitor, the pre-order walk and the script `parse` loop |
| `markup.dfy` | `Markup` | the document tree, `textContent`, `getElementsByTagName('*')`, the per-element candidate loop and the markup `parse` loop |
| `stats.dfy` | `Stats` | `getStat` and the partition of the file list |

The state-changing code is imperative Dafny:

- `Result` is a class whose two `map<string, set<string>>` fields its
  methods update.
- Each method's postcondition ties the new state to a function of the old
  one. For example, `Results.Add` gives the effect of one
  `addPhraseToResult` call, and `Results.Run` gives a whole extractor run.
- Lemmas prove the promised properties about those functions.

Pieces of the environment are parameters of the model:

- The parsers are functions from a path to an optional tree; `None` stands
  for a file the parser rejects.
- `path.resolve` is a function parameter.

## Edge cases of the code

- **The dot rule.** `sanitize` rejects a single word when its *last* `.`
  is not the final character (`lastIndexOf`). It does not reject any word
  with an inner `.`: `a.b..` is accepted as `a.b.`.
- **`a.b.` is rejected.** The trailing mark is removed *before* the dot
  rule runs. So `a.b.` becomes `a.b`, whose last dot is inside, and it is
  rejected. A text with a single final dot does not escape the rule.
- **`"Saved!"` is filed as `Saved`.** The regex strips one trailing
  character of the class ``[.,?!:;'"`]``, so the `!` goes too.
  `Script.SavedFiledExample` states it.
- **`length` counts UTF-16 code units.** The final test `text.length > 1`
  accepts a single character outside the Basic Multilingual Plane, such as
  an emoji, because its `length` is 2 (`Common.SanitizeAstralExample`). The
  model's strings are sequences of code points, so `Text.Utf16Length`
  counts such a character twice. The other tests that use positions decide
  the same on code points as on code units: the dot rule compares the
  position of a `.` with the last position, and `slice(1)` can only split
  a surrogate pair, which `toLowerCase` leaves alone.

## Model

| member | source | states |
|---|---|---|
| Text.Trim | src/common.ts:21 | the trimmed text has no white space at either end |
| Text.TrimIsSlice | src/common.ts:21 | `trim` removes only white space at the two ends: the result is the contiguous slice after the leading spaces, and what it drops is blank |
| Text.TrimIdempotent | src/common.ts:68 | trimming a trimmed text changes nothing, so the final `trim` of `sanitize` returns the stripped text itself |
| Text.TrimEmptyIffBlank | src/common.ts:89 | `trim` yields the empty string exactly when the text is blank, which is the blank test of the aggregator |
| Text.LastIndexOf | src/common.ts:27 | `lastIndexOf` returns -1 or an index where the substring occurs, and no later index has an occurrence |
| Text.ToLower | src/common.ts:57 | lower-casing keeps the length and lowers each character |
| Text.ToLowerUnchangedIff | src/common.ts:57 | lower-casing leaves a text unchanged exactly when it has no upper-case letter |
| Text.ConcatAppend | src/js.ts:70 | joining two lists of quasis in turn is joining their concatenation |
| Text.StartsWith | src/common.ts:25 | `startsWith`: the text begins with the given prefix |
| Text.EndsWith | src/common.ts:26 | `endsWith`: the text ends with the given suffix |
| Text.Includes | src/common.ts:52 | `includes`: the substring occurs at some position; `Common.DoubleHyphenGuard` restates it for `--` |
| Text.IsNumeric | src/common.ts:47 | `!isNaN(Number(text))`: the trimmed text is blank or a literal of the string-to-number grammar of ECMAScript; the lemmas below pin it down on examples |
| Text.NonNumericStartIsNotNumeric | src/common.ts:47 | a trimmed text beginning with anything other than a digit, `.`, a sign or `I` is not numeric, so `isNaN` holds for it |
| Text.NumericIgnoresPadding | src/common.ts:47 | `Number` trims first: white space around a text never changes whether `isNaN` holds |
| Text.PaddedIntegerIsNumeric | src/common.ts:47 | ` 42 ` is numeric: surrounding white space is ignored |
| Text.SignedExponentIsNumeric | src/common.ts:47 | `-1.5e3` is numeric |
| Text.HexIsNumeric | src/common.ts:47 | `0x1F` is numeric |
| Text.InfinityIsNumeric | src/common.ts:47 | `Infinity` is numeric |
| Text.TwoPointsIsNotNumeric | src/common.ts:47 | `1.2.3` is not numeric |
| Text.Utf16LengthBounds | src/common.ts:68 | `length` counts at least one and at most two code units per character |
| Text.Utf16LengthAboveOne | src/common.ts:68 | `length > 1` holds exactly for two or more characters, or a single character outside the Basic Multilingual Plane |
| Common.StripTrailingMark | src/common.ts:21 | the mark-stripping `replace`: removes the final character when it is a mark; `Common.StripIsPrefix`, `Common.StrippedUnmarked` and `Common.StrippedMarked` state its effect |
| Common.Sanitize | src/common.ts:16-69 | the empty text is rejected; an accepted text is the input with at most one trailing mark removed, then trimmed, and its `length` is above one |
| Common.Guards | src/common.ts:23-68 | an accepted text is returned trimmed, and its `length` in UTF-16 code units is above one |
| Common.GuardsAcceptIff | src/common.ts:23-68 | the guards accept exactly the texts longer than one UTF-16 code unit that are no angular or brace interpolation, no template tag, and, when space-free, do not look like code |
| Common.SanitizeAcceptsIff | src/common.ts:16-69 | `sanitize` accepts a text exactly when its stripped form passes every guard in source order (both directions) |
| Common.AngularGuard | src/common.ts:24-30 | the `{{`/`}}`/`lastIndexOf('{{') === 0` test holds exactly for a text wrapped in `{{…}}` with no other `{{` |
| Common.BraceGuard | src/common.ts:32-38 | the `{`/`}` test holds exactly for a text wrapped in `{…}` with no other `{` |
| Common.DotGuard | src/common.ts:62-65 | the dot test holds exactly when the last `.` exists and is not the final character |
| Common.DoubleHyphenGuard | src/common.ts:52 | `includes('--')` holds exactly when two adjacent hyphens occur |
| Common.CamelCaseGuard | src/common.ts:57-59 | the camel-case test holds exactly when an upper-case letter follows the first character |
| Common.PrefixGuard | src/common.ts:47 | the `#`/`$` test holds exactly when the text starts with one of them |
| Common.SanitizeMultiWord | src/common.ts:46-68 | a text holding a space skips the single-word checks: it is accepted exactly when it is no interpolation or template tag and is longer than one UTF-16 code unit |
| Common.IsSingleWord | src/common.ts:46 | the single-word test, read as "holds no space"; `Common.SingleWordIffOnePiece` ties it to the split as written |
| Common.SingleWordIffOnePiece | src/common.ts:46 | `split(' ')` gives exactly one piece exactly when the text holds no space, both directions |
| Common.SanitizeRejectsCodeWords | src/common.ts:46-66 | a single word that is numeric, starts with `#` or `$`, holds `_ / = : [ ]` or `--`, has an upper-case letter after the first, or has an inner last dot is rejected |
| Common.StripIsPrefix | src/common.ts:21 | the mark-stripping regex keeps a prefix and removes at most one character |
| Common.StrippedIsSlice | src/common.ts:21 | the stripped form is a contiguous slice of the input preceded only by white space |
| Common.SanitizeKeepsCharacters | src/common.ts:21-68 | an accepted phrase is a contiguous slice of the input: no character inside it changes |
| Common.StrippedUnmarked | src/common.ts:21 | a trimmed text without a trailing mark is its own stripped form |
| Common.StrippedMarked | src/common.ts:21 | exactly one trailing mark is removed, even when marks repeat |
| Common.PlainWordIsNotCode | src/common.ts:46-65 | a word of a leading letter (not `I`) and lower-case letters, single hyphens and dots, whose last dot ends it, passes every single-word check |
| Common.SanitizeAcceptsPlainWord | src/common.ts:46-68 | such a word is accepted unchanged |
| Common.SanitizeEmptyExample | src/common.ts:17-19 | `""` is rejected |
| Common.SanitizeAllCapsExample | src/common.ts:57-59 | `OK` is rejected by the camel-case check |
| Common.SanitizeCapitalisedWordExample | src/common.ts:46-68 | `Hello` is accepted |
| Common.SanitizeCamelCaseExample | src/common.ts:57-59 | `myVariable` is rejected |
| Common.SanitizeTrailingDotExample | src/common.ts:21 | `Hello world.` gives `Hello world` |
| Common.SanitizeDoubleTrailingDotExample | src/common.ts:21 | `Hello world..` gives `Hello world.` |
| Common.SanitizeExclamationExample | src/common.ts:21 | `Saved!` gives `Saved` |
| Common.SanitizeInterpolationExample | src/common.ts:24-30 | `{{name}}` is rejected |
| Common.SanitizeProseWithInterpolationExample | src/common.ts:46-68 | `Hello {{name}}` is accepted unchanged |
| Common.SanitizeNumberExample | src/common.ts:47-49 | `42` is rejected as numeric |
| Common.SanitizeHashExample | src/common.ts:47-49 | `#fff` is rejected by the `#` prefix |
| Common.SanitizeUnderscoreExample | src/common.ts:52-54 | `foo_bar` is rejected as a variable name |
| Common.SanitizeHyphenExample | src/common.ts:52-54 | `foo-bar` is accepted: a single hyphen is not `--` |
| Common.SanitizePropertyPathExample | src/common.ts:62-65 | `a.b.c` is rejected as a property path |
| Common.SanitizeTrailingDotPathExample | src/common.ts:21-65 | `a.b.` is rejected: its final dot is stripped before the dot rule runs |
| Common.SanitizeDoubleDotPathExample | src/common.ts:62-65 | `a.b..` gives `a.b.`, whose last dot is final |
| Common.SanitizeEllipsisExample | src/common.ts:21 | `Wait...` gives `Wait..` |
| Common.SanitizeAstralExample | src/common.ts:68 | a single emoji, one code point but two code units, is accepted unchanged |
| Results.BreakAt | src/common.ts:87 | a match of the separator regex is three characters or one, and fits in the text |
| Results.TokensFrom | src/common.ts:87 | the scan of `split`: a segment runs until a match starts, the match becomes a separator, and the scan resumes after it; the lemmas below state it |
| Results.SplitOnBreaks | src/common.ts:87 | the array `split` returns: each segment, and for each match its two capture groups; `Results.PiecesComeFromTokens` and `Results.SplitExample` state it |
| Results.Captures | src/common.ts:87 | the two capture groups of one match: the last white-space character of three, or undefined, then the newline, or undefined; `Results.PiecesComeFromTokens` states what reaches the loop |
| Results.TokensSpellInput | src/common.ts:87 | the split segmentation loses nothing: segments and separators spell the input and alternate, and they form its leftmost split, where no match of the whole input starts inside a segment |
| Results.TokensFromIsLeftmost | src/common.ts:87 | the scan yields a leftmost split: each segment ends where the first match after it starts, or at the end |
| Results.LeftmostSplitIsTokens | src/common.ts:87 | any leftmost split is the one the scan yields |
| Results.SplitIsUnique | src/common.ts:87 | a token list is the leftmost split of the input exactly when it is the scan's result, so the segmentation is unique |
| Results.TokensAreWellFormed | src/common.ts:87 | the scan from any position yields alternating segments and separators; separators are blank matches; segments hold no match; and the result is the leftmost split of the rest of the input |
| Results.TokensRebuild | src/common.ts:87 | the scan from any position spells the rest of the input |
| Results.SplitWithoutBreak | src/common.ts:87 | a text without a match splits into itself alone |
| Results.PiecesComeFromTokens | src/common.ts:87-91 | each entry of the split array is `undefined`, blank (a captured group), or the whole text of a segment |
| Results.SplitExample | src/common.ts:87 | `a   b` splits into `a`, the captured space, `undefined` and `b` |
| Results.Judge | src/common.ts:89-110 | a piece is skipped exactly when absent or blank; otherwise it is accepted as `sanitize` of the trimmed piece, or ignored as the trimmed piece when `sanitize` rejects it |
| Results.AcceptedInMeans | src/common.ts:104-110 | a text is among the accepted phrases exactly when some piece was accepted as it |
| Results.IgnoredInMeans | src/common.ts:95-102 | a text is among the ignored ones exactly when some piece was ignored as it |
| Results.Extend | src/common.ts:96-110 | the set under `path` grows by the new texts; other keys are untouched; the key is created only when something is added |
| Results.ExtendTwice | src/common.ts:102-110 | two additions under one key are one addition of their union |
| Results.Add | src/common.ts:76-113 | one call of `addPhraseToResult` as a value: both maps extended under `path` by what the pieces add; `Results.Result.AddPhraseToResult` is proved to have this effect, and the lemmas below state its properties |
| Results.Result.constructor | src/js.ts:23-26 | a new result holds two empty maps |
| Results.Result.AddPhraseToResult | src/common.ts:76-113 | the new `phrases` map is the old one extended under `path` by the accepted pieces, and the new `ignored` map by the ignored ones |
| Results.Result.FilePieces | src/common.ts:88-112 | the loop over the pieces adds, piece by piece, exactly what their verdicts accept and ignore |
| Results.Result.FileVerdict | src/common.ts:95-111 | one piece adds its phrase to `phrases`, or its text to `ignored`, or nothing, creating the set lazily |
| Results.AddAbsent | src/common.ts:81-83 | an absent phrase leaves both maps unchanged |
| Results.AddBlank | src/common.ts:85-91 | an empty or blank phrase adds nothing to either map |
| Results.AddOnlyTouchesPath | src/common.ts:96-110 | only the sets under `path` can change; every other key keeps its presence and its set |
| Results.AddIdempotent | src/common.ts:102-110 | adding the same phrase twice is adding it once |
| Results.AddSingleLine | src/common.ts:93-110 | a one-line phrase without a separator run is filed once, either in `phrases` as `sanitize` returns it or, trimmed, in `ignored`, never both |
| Results.JudgeTrimmed | src/common.ts:93 | a trimmed non-empty piece is judged by `sanitize` directly |
| Results.AcceptedComesFromSegment | src/common.ts:85-110 | every accepted phrase is `sanitize` of a trimmed segment of the trimmed input, which holds no separator match |
| Results.IgnoredComesFromSegment | src/common.ts:85-102 | every ignored text is the trimmed, non-blank form of such a segment, and `sanitize` rejects it |
| Results.SegmentIsFiled | src/common.ts:88-111 | conversely, every non-blank segment of the trimmed input is filed: its sanitized form among the phrases, or its trimmed text among the ignored ones |
| Results.FoldAppend | src/common.ts:88 | feeding two lists in turn is feeding their concatenation |
| Results.AddAllAppend | src/html.ts:36-38 | two runs of calls under one path are one run over the concatenated phrases |
| Results.AddAllIsExtend | src/common.ts:96-110 | a run of calls under one path extends each map by the union of what the single calls add |
| Results.UnionOverSameElements | src/common.ts:110 | such a union depends only on which phrases occur |
| Results.AddAllDependsOnSet | src/html.ts:36-38 | a run of calls under one path depends only on which phrases are handed in, not on their order or how often each comes |
| Results.AddAllKeys | src/js.ts:80 | calls under one path add no key but that path |
| Results.Run | src/js.ts:28-85 | the loop of either extractor over the files: each parsed file's phrases are filed under its path in order, and the first file that fails to parse ends the run with its error; the two lemmas below state it |
| Results.RunKeys | src/js.ts:28-85 | a finished run has no keys other than its entries |
| Results.RunFailsOnFirstUnparsable | src/js.ts:28-43 | a run fails exactly when some file does not parse, and then it names the first such file |
| Script.ValidSide | src/js.ts:91-97 | one side is valid when it is a literal or a valid `+` node; `Script.ValidSideIffLiteralLeaves` states it |
| Script.ValidateBinaryExpression | src/js.ts:90-100 | both sides are valid; `Script.ValidateIffLiteralLeaves` states it |
| Script.GetBinaryExpressionValue | src/js.ts:102-118 | the value of a `+` chain; `Script.ValueIsLeavesConcatenated` and `Script.NonPlusValueIsEmpty` state it |
| Script.PlusLeaves | src/js.ts:90-100 | the leaves of a `+` chain are at least one and none is a `+` node |
| Script.ValidSideIffLiteralLeaves | src/js.ts:91-97 | one side is valid exactly when every leaf reached through nested `+` nodes is a string or template literal |
| Script.ValidateIffLiteralLeaves | src/js.ts:90-100 | `validateBinaryExpression` holds exactly when both sides have only literal leaves; the top operator is not checked |
| Script.ValueIsLeavesConcatenated | src/js.ts:102-118 | `getBinaryExpressionValue` is the in-order concatenation of the leaf texts, where a template contributes its joined quasis and any other leaf nothing |
| Script.NonPlusValueIsEmpty | src/js.ts:111-117 | a binary node with another operator evaluates to the empty string |
| Script.NodePhrase | src/js.ts:46-81 | the visitor returns early exactly when the parent is a module declaration or a binary expression, or the node is a module declaration |
| Script.StringLiteralPhrase | src/js.ts:56-68 | a string literal yields its value, except inside a JSX attribute whose name (the local part when namespaced) is not localizable, where it yields the empty string |
| Script.OperandsAreNotHarvested | src/js.ts:47-53 | the operands of a binary expression yield no phrase |
| Script.PhraseOrigin | src/js.ts:55-78 | a non-empty phrase comes from a string or template literal, JSX text, or a valid `+` chain, whose phrase is its leaves concatenated; a template yields its quasis joined |
| Script.Visits | src/js.ts:45-82 | the pre-order traversal: a node is entered with its parent, then its children in order; the lemmas below state it |
| Script.Walk | src/js.ts:45 | `traverse` enters everything below the root; `Script.Traverse` files the phrases along it |
| Script.VisitsAllEntersEach | src/js.ts:45-82 | the walk enters every node of a list of children |
| Script.ChildrenAreVisited | src/js.ts:45-82 | every child of a visited node is entered with that node as its parent; there is no `skip` |
| Script.PhrasesArePresent | src/js.ts:80 | every call the walk makes hands the aggregator a string, never `undefined` |
| Script.Traverse | src/js.ts:45-82 | the traversal leaves the result as the phrases of the walk, added in order under `entry` |
| Script.Parse | src/js.ts:22-88 | the result is that of the run over the entries from an empty record, or the run's parse error |
| Script.ConcatenationExamples | src/js.ts:71-75 | `"Hello " + "World"` yields `Hello World`; `"Hello " + name` yields the empty string |
| Script.AttributeExamples | src/js.ts:58-68 | `title="Save"` yields `Save`; `data-test-subj="foo"` yields the empty string |
| Script.SavedPhraseExample | src/js.ts:71-75 | `"Saved!" + ""` yields `Saved!` |
| Script.SavedFiledExample | src/common.ts:85-110 | `Saved!` is filed in `phrases` as `Saved`, and nothing is ignored |
| Markup.TextContent | src/html.ts:28 | `textContent`: the data of every text node below, in document order; `Markup.NestTextContent` states it for nested text |
| Markup.ElementsOf | src/html.ts:27 | `getElementsByTagName('*')`: every element in document order; the two lemmas below state it |
| Markup.ElementsAreElements | src/html.ts:27 | `getElementsByTagName('*')` lists only elements |
| Markup.EveryElementIsListed | src/html.ts:27 | an element comes first in its own list, and every element below its children follows in it |
| Markup.CollectCandidates | src/html.ts:28-34 | the per-element loop yields the text content when non-empty, then the present, non-empty localizable attributes in list order |
| Markup.AttributeContent | src/html.ts:30-31 | `getAttribute` and the truthiness test: the value when the attribute is present and not empty; `Markup.AttributeValuesMeans` states it |
| Markup.AttributeValuesMeans | src/html.ts:29-34 | a value is collected exactly when it is non-empty and held by one of the listed attributes |
| Markup.CandidatesMeans | src/html.ts:28-34 | a candidate is the non-empty text content or the non-empty value of a localizable attribute, and each of those is a candidate |
| Markup.Candidates | src/html.ts:28-34 | the text content, then the localizable attribute values in list order, each kept only when non-empty; `Markup.CandidatesMeans` and `Markup.CollectCandidates` state it |
| Markup.OtherAttributesAreIgnored | src/html.ts:29-30 | changing an attribute that is not listed changes none of the collected values |
| Markup.NonLocalizableAttributeIsIgnored | src/html.ts:29-30 | an attribute outside `LOCALIZABLE_ATTRIBUTES` never affects the candidates |
| Markup.NoLocalizableAttributes | src/html.ts:29-34 | an element without listed attributes contributes no attribute value |
| Markup.AddEach | src/html.ts:36-38 | each candidate is passed in order to `addPhraseToResult` under `entry` |
| Markup.VisitElements | src/html.ts:27-39 | the loop over all elements leaves the result as the document's candidates, added in order |
| Markup.Parse | src/html.ts:11-45 | the result is that of the run over the entries from an empty record, or the run's parse error |
| Markup.NestTextContent | src/html.ts:28 | the text content of an element nest is the text inside it |
| Markup.ElementPhrasesAppend | src/html.ts:27-38 | the phrases of two element lists in turn are those of their concatenation |
| Markup.NestedTextIsHandedPerElement | src/html.ts:27-38 | text inside any number of nested elements without localizable attributes is handed in once for each of those elements |
| Markup.NestedTextIsFiledOnce | src/html.ts:27-38 | however deep the nesting, such text is filed as if it were handed in once |
| Stats.CollapseWhitespace | src/index.ts:109 | `replace(/\s+/g, ' ')`: the result is no longer than the input; its meaning is stated by `Stats.CollapseIsCollapsed`, `Stats.CollapseCountsRuns` and `Stats.CollapseKeepsOthers` |
| Stats.CollapseIsCollapsed | src/index.ts:109 | after `replace(/\s+/g, ' ')` the only white space left is single spaces |
| Stats.CollapseCountsRuns | src/index.ts:109 | the collapse writes exactly one space for each maximal run of white space, counted position by position as `Stats.RunStarts` |
| Stats.CollapseKeepsOthers | src/index.ts:109 | every character other than white space survives the collapse, in order (`Stats.NonSpaces`) |
| Text.SplitOnChar | src/index.ts:109 | `split(' ')` yields one more piece than there are spaces |
| Text.SplitOnCharJoins | src/index.ts:109 | joining the pieces with the separator gives the text back, and no piece holds the separator |
| Stats.WordCount | src/index.ts:109 | every phrase counts at least one word |
| Stats.WordCountIsRunsPlusOne | src/index.ts:109 | a phrase counts one word more than it has maximal runs of white space, leading and trailing runs included |
| Stats.WordCountExample | src/index.ts:109 | `" a  b\n\tc "` counts five words |
| Stats.OneWord | src/index.ts:109 | a phrase without white space is one word |
| Stats.TwoWords | src/index.ts:109 | two words separated by any run of white space count two |
| Stats.AddEachPhrase | src/index.ts:101-103 | the inner loop adds every phrase of one file to the set |
| Stats.CollectUnique | src/index.ts:99-104 | the set collected is the union of all files' phrase sets |
| Stats.UnionOf | src/index.ts:99-104 | the union of every file's phrase set; `Stats.UnionStep` and `Stats.CollectUnique` state it |
| Stats.SumWordCounts | src/index.ts:108-110 | the reduce adds up the word counts of the distinct phrases |
| Stats.GetStat | src/index.ts:96-112 | the phrase count is the size of the union of all files' sets; the word count is the sum of the word counts over that union |
| Stats.WordTotalRemove | src/index.ts:108-110 | the sum does not depend on the order in which the phrases are taken |
| Stats.StatBounds | src/index.ts:106-111 | there are at least as many words as phrases, and an empty map gives zero of each |
| Stats.SharedPhraseCountsOnce | src/index.ts:99-107 | a phrase found in two files stays in the union when either file is left out, so it is counted once |
| Stats.UnionStep | src/index.ts:100-104 | taking one more file into the union adds exactly its phrases |
| Stats.UnionOfMerge | src/index.ts:79-81 | the phrases of the merged map are those of the markup result and those of the script result |
| Stats.PartitionEntries | src/index.ts:62-71 | the markup list holds the resolved entries ending in `.html`, the script list the resolved others, each in input order |
| Stats.PartitionIsComplete | src/index.ts:62-71 | every entry lands in exactly one list: the two lists together are a permutation of the input |
| Stats.FilterMeans | src/index.ts:64 | an entry is in the markup list exactly when it ends in `.html`, and in the script list exactly when it does not |
| Stats.IsHtml | src/index.ts:64 | the `endsWith('.html')` test on an entry |
| Stats.Filter | src/index.ts:62-71 | the entries on one side of the test, in input order; `Stats.FilterMeans`, `Stats.FilterKeepsOrder` and `Stats.PartitionEntries` state it |
| Stats.FilterKeepsOrder | src/index.ts:62-71 | each list is a subsequence of the input, picked at increasing positions |

## Left out

- File reading, `fast-glob` and the include and exclude glob lists are out: they are I/O and a foreign library. The file list is an input.
- The Babylon parser and the babel-traverse engine are out. A script file is a `Script.Node` tree supplied by a parser parameter, and the walk is a pre-order traversal that records each node's parent.
- `Script.Node`: the tree keeps only the node kinds the visitor tells apart. Quasi nodes (template elements) and JSX name nodes are not nodes of the tree. Babel visits them, but they fall through every branch and pass `''`, and `Results.AddBlank` shows that `''` adds nothing.
- JSDOM is out, including the `html`, `head` and `body` elements its parser inserts. A markup file is a `Markup.Dom` tree supplied by a loader parameter; comments and other non-text nodes are not part of it.
- `path.resolve` is a function parameter of `Stats.PartitionEntries`.
- The `console.log` before rethrowing a parse error is out. Only the fact that the run stops at that file with that error is modelled.
- `print`, every `chalk`/`console` output, and the argument checks that call `process.exit` are out: they are presentation and process control.
- `async` and `Promise` are out. The code runs sequentially, and so does the model.
- `Text.IsSpace`: white space is the ASCII set (space, tab, line feed, vertical tab, form feed, carriage return). The Unicode spaces that JavaScript's `trim` and `\s` also match are left out.
- `Text.ToLower`: lower-cases ASCII letters only. Unicode case mapping is left out.
- `Text.IsNumeric`: follows the ECMAScript string-to-number grammar on ASCII white space: decimal literals with optional sign, fraction and exponent, `Infinity`, and `0x`/`0o`/`0b` integers. It computes no numeric value (no floating point).
- `Stats.UnionOfMerge` assumes no file is in both results. The driver's partition makes that so, because one list holds only `.html` files, but the model does not connect the two.
- `Stats.WordTotal` is a ghost sum over a set, so `Stats.GetStat` states its word count through it rather than through a particular iteration order.
- `webpack.config.js` is build configuration with no logic.
