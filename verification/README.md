# Character consistency analysis — a Dafny model

The system is a browser demo. It reads a story, a character's backstory and
the character's name, and judges whether the character behaves in the story
the way the backstory says. The judgement uses local keyword heuristics only.
This project models the analysis engine in `main.js`:

- `determineTrait` scores four traits by counting which keywords occur in the
  lower-cased backstory and story, then maps the score onto low / medium /
  high (`traits.dfy`).
- Claim segmentation splits the backstory at `.`, `!` and `?` and keeps the
  trimmed fragments longer than 10 characters (`claims.dfy`).
- `evaluateClaim` and `keywordsOverlap` label each claim contradicted,
  supported or mixed, each with a fixed evidence sentence (`evaluation.dfy`).
- `simulateAnalysis` predicts 0 when at least two claims are contradicted
  and 1 otherwise. `generateExplanation` builds the templated explanation
  (`analysis.dfy`).
- The JavaScript string operations the engine relies on are modelled as
  functions on `string` (`text.dfy`): `toLowerCase`, `toUpperCase`, `trim`,
  `includes`, and `split` on a class of single characters.

`determineTrait` updates a running score in a loop, so it is a method with a
loop invariant, proved equal to the pure count `HitCount`. The profile step
(`ScoreProfile`) and the whole pipeline (`SimulateAnalysis`) are methods as
well. Each is proved equal to a specification function (`ProfileOf`,
`AnalysisOf`), and the lemmas state what those functions promise. Everything
else in the core computes values, so it is modelled with functions and lemmas.

A few facts about `main.js` that the model keeps exactly:

- The negation cues are exactly "never", "didn't" and "refused"
  (main.js:132).
- The evidence is one of three fixed sentences, one per verdict
  (main.js:136-143).
- When the prediction is 1, the explanation cites the trustworthiness and
  risk-taking levels (main.js:156).

## Model

| member | source | states |
|---|---|---|
| Text.ToLower | main.js:116 | the result has the input's length and holds each character lower-cased |
| Text.LowerIdempotent | main.js:128-129 | lower-casing an already lower-cased text changes nothing |
| Text.ToUpper | main.js:153 | the result has the input's length and holds each character upper-cased |
| Text.IsWhitespace | main.js:90 | the ECMAScript WhiteSpace and LineTerminator characters that `trim` removes and `\s` matches; the lemma `Text.WhitespaceMembers` ties it to the set used for splitting |
| Text.WhitespaceMembers | main.js:147 | the whitespace set that `split(/\s+/)` splits at holds exactly the characters `IsWhitespace` accepts |
| Text.TrimStart | main.js:90 | the result is a suffix of the input; every dropped character is whitespace; the result does not start with whitespace |
| Text.TrimEnd | main.js:90 | the result is a prefix of the input; every dropped character is whitespace; the result does not end with whitespace |
| Text.Trim | main.js:90 | the result has no whitespace at either end, is a contiguous slice of the input, and everything around that slice is whitespace |
| Text.TrimmedIsFixed | main.js:90 | trimming a string with no whitespace at either end returns it unchanged |
| Text.TrimIdempotent | main.js:90 | trimming twice is trimming once |
| Text.TrimContained | main.js:90 | the trimmed string is a substring of the original |
| Text.TrimKeepsNoneIn | main.js:90 | trimming introduces no character the input did not have |
| Text.PrefixStartsWith | main.js:153 | a concatenation starts with its first part |
| Text.Contains | main.js:118 | `includes`: the pattern starts at the first position or occurs in the rest; `Text.ContainsIffOccurs` shows it is "occurs at some index" |
| Text.OccursContains | main.js:118 | `includes` finds an occurrence at any index |
| Text.ContainsOccurs | main.js:118 | when `includes` succeeds, the pattern occurs at some index, which the lemma returns |
| Text.ContainsIffOccurs | main.js:118 | `includes` holds exactly when the pattern occurs at some index |
| Text.LongerNotContained | main.js:118 | a pattern longer than the text is never found |
| Text.ContainsTransitive | main.js:148 | a substring of a substring is a substring |
| Text.ContainsLeft | main.js:153 | the first part of a concatenation occurs in it |
| Text.ContainsRight | main.js:156 | the second part of a concatenation occurs in it |
| Text.ContainsInfix | main.js:159 | the middle part of a concatenation occurs in it |
| Text.ContainsInLeft | main.js:153 | what occurs in the first part of a concatenation occurs in the whole |
| Text.ContainsInRight | main.js:156 | what occurs in the second part of a concatenation occurs in the whole |
| Text.ContainsSecondAndFourth | main.js:153-156 | the second and fourth of five concatenated parts occur in the whole; the opening and the consistent remark are such five-part templates |
| Text.Separators | main.js:90 | the removed characters are all delimiters, and there are no more of them than input characters |
| Text.Split | main.js:90 | there is one more piece than there are delimiters; no piece contains a delimiter |
| Text.SplitThenInterleave | main.js:90 | joining the pieces with the removed delimiters gives back the input |
| Text.InterleaveThenSplit | main.js:90 | delimiter-free pieces joined by delimiters split back into exactly those pieces and delimiters |
| Text.SplitFreePrefix | main.js:90 | a delimiter-free prefix is glued onto the first piece of what follows it |
| Text.SplitFree | main.js:90 | a delimiter-free string splits into itself alone |
| Text.SeparatorsFree | main.js:90 | a delimiter-free string has no separators |
| Text.SeparatorsAppend | main.js:90 | the separators of a concatenation are those of its parts, in order |
| Text.PieceInInterleave | main.js:90 | each piece occurs in the joined string |
| Text.SplitPieceContained | main.js:90 | every piece of a split is a substring of its input |
| Text.SuffixPrefix | main.js:90 | a prefix of a suffix is a slice of the whole, and what follows it in the suffix is what follows it in the whole |
| Traits.LevelOf | main.js:121-123 | "high" exactly when the score is above 3, "medium" exactly for 2 and 3, "low" exactly when it is at most 1 |
| Traits.LevelMonotone | main.js:121-123 | a larger score never gives a lower level |
| Traits.HitCount | main.js:115-119 | the score is at most the number of keywords |
| Traits.TraitText | main.js:116 | the scored text is backstory, a space and story, lower-cased; its length is their combined length plus one |
| Traits.TraitLevel | main.js:114-124 | the level `determineTrait` returns, as a value; it is never above the level the keyword list's length gives |
| Traits.DetermineTrait | main.js:114-124 | the loop's running score equals the number of keywords found in the lower-cased text, and the level is that score's threshold level; that level is never above the one the keyword list's length gives |
| Traits.HitCountAll | main.js:117-119 | the score equals the list's length exactly when every keyword is found |
| Traits.HitCountNone | main.js:117-119 | the score is zero exactly when no keyword is found |
| Traits.HitCountByPresence | main.js:117-119 | the score depends only on which keywords are present: a text that holds every keyword another holds scores at least as high |
| Traits.EmptyTextIsLow | main.js:114-124 | an empty backstory and story give "low" for any list of keywords longer than one character |
| Traits.EmptyRequestIsLow | main.js:82-87 | all four traits of an empty request are "low" |
| Claims.Fragments | main.js:90 | the split yields at least one fragment, and no fragment contains '.', '!' or '?' |
| Claims.LongEnough | main.js:90 | the filter's test: the trimmed fragment is longer than 10 characters |
| Claims.LongMask | main.js:90 | one flag per fragment, set exactly when the trimmed fragment is longer than 10 characters |
| Claims.Select | main.js:90 | a selection is never longer than its input |
| Claims.SelectMatch | main.js:90 | selected element `j` is the input element at position `j` of the set-flag positions |
| Claims.PositionsIncrease | main.js:90 | the selected positions strictly increase, so order is kept |
| Claims.PositionsComplete | main.js:90 | every position whose flag is set is selected |
| Claims.KeepLongSelects | main.js:90 | the length filter keeps exactly the long fragments, in their original order |
| Claims.KeepLong | main.js:90 | the `.filter` step: never more fragments than it was given; `Claims.KeepLongSelects` shows it keeps exactly the long ones in order |
| Claims.Segment | main.js:90 | every claim is longer than 10 characters and carries no whitespace at either end |
| Claims.SegmentInOrder | main.js:90 | claim `j` is the trimmed long fragment at an increasing position, and no long fragment is skipped |
| Claims.SegmentEmpty | main.js:90 | there are no claims exactly when no fragment is longer than 10 characters once trimmed |
| Claims.SegmentClaimSource | main.js:90 | each claim is some fragment of the backstory, trimmed |
| Claims.SegmentClaimsInBackstory | main.js:90 | each claim is a substring of the backstory and holds no sentence-ending character |
| Claims.SegmentClaimAgain | main.js:90 | segmenting a claim again yields exactly that claim |
| Evaluation.Evidence | main.js:135-143 | each verdict's evidence sentence is non-empty |
| Evaluation.HasNegationCue | main.js:132 | the story holds "never", "didn't" or "refused"; `Evaluation.VerdictRule` states the verdicts through it |
| Evaluation.SomeContained | main.js:148 | `.some(w => s2.includes(w))`: some word of the list occurs in the text; `Evaluation.LongWordsSome` characterises it |
| Evaluation.LongWords | main.js:147 | the kept words are all longer than 4 characters and all come from the input |
| Evaluation.LongWordsSome | main.js:147-148 | testing only the long words is the same as asking whether some word longer than 4 characters is found |
| Evaluation.Overlap | main.js:146-149 | `keywordsOverlap`: some long word of the whitespace-split first text occurs in the second; `Evaluation.OverlapIffLongWord` states this for every input |
| Evaluation.OverlapIffLongWord | main.js:146-149 | the texts overlap exactly when some whitespace-separated word of the first, longer than 4 characters, is a substring of the second |
| Evaluation.ShortTextNoOverlap | main.js:146-149 | a first text of at most 4 characters never overlaps |
| Evaluation.EvaluateClaim | main.js:126-144 | the evidence is always the fixed sentence for the verdict |
| Evaluation.VerdictRule | main.js:128-143 | contradicted exactly when a negation cue and a shared long word occur; supported exactly when a shared long word occurs and no cue does; mixed exactly when no long word is shared |
| Evaluation.CharacterIrrelevant | main.js:126-144 | the character's name has no effect on the verdict or the evidence |
| Evaluation.CaseInsensitive | main.js:128-129 | only the lower-cased claim and story matter |
| Analysis.AnalyseClaims | main.js:93-100 | one entry per claim, in the same order; each entry carries its claim unchanged, that claim's verdict and the matching evidence |
| Analysis.ContradictedEntries | main.js:103 | the filter keeps only contradicted entries, all taken from the input |
| Analysis.FirstContradicted | main.js:158 | the first entry the filter returns is the first contradicted entry |
| Analysis.NoneContradicted | main.js:103 | the filter returns nothing exactly when no entry is contradicted |
| Analysis.LeastContradicted | main.js:158 | any contradicted entry has a first contradicted entry at or before it |
| Analysis.TwoContradicted | main.js:103-104 | the filter returns at least two entries exactly when two distinct entries are contradicted |
| Analysis.CountIgnoresOtherVerdicts | main.js:103 | only whether an entry is contradicted affects the count |
| Analysis.Prediction | main.js:102-104 | the prediction is 0 or 1, and 0 exactly when two distinct entries are contradicted |
| Analysis.OneContradictionIsConsistent | main.js:102-104 | a single contradicted claim gives the prediction 1 |
| Analysis.Status | main.js:152 | "Consistent" for prediction 1, "Contradicted" otherwise; `Analysis.StatusUpperCase` gives the shown word |
| Analysis.StatusUpperCase | main.js:152-153 | the status shown is "CONSISTENT" for prediction 1 and "CONTRADICTED" otherwise |
| Analysis.Opening | main.js:153 | the base sentence: fixed text, the character's name, fixed text, the upper-cased status, fixed text; `Analysis.ExplanationNamesStatus` shows the name and status occur |
| Analysis.QuotedClaim | main.js:158-159 | `reasons[0] \|\| 'the character is consistent'`: the phrase is never empty; `Analysis.QuotedIsFirstContradicted` and `Analysis.ExplanationFallback` give both cases |
| Analysis.ConsistentRemark | main.js:156 | the consistent branch's text, citing the trustworthiness and risk-taking levels; `Analysis.ExplanationReportsTraits` shows where each occurs |
| Analysis.DriftRemark | main.js:159 | the inconsistent branch's text around the quoted phrase; `Analysis.QuotesRemark` shows the quote occurs |
| Analysis.Explain | main.js:151-161 | the explanation always begins with the opening sentence |
| Analysis.ExplanationNamesStatus | main.js:152-153 | the explanation contains the character's name and the upper-cased status |
| Analysis.ExplanationReportsTraits | main.js:155-156 | for prediction 1 the explanation holds "<trustworthiness level> in trustworthiness" and "<risk-taking level> levels of risk-taking", so each level is reported in its own place |
| Analysis.ExplanationQuotesFirstContradiction | main.js:157-159 | otherwise, the explanation quotes the first contradicted claim when that claim is non-empty |
| Analysis.ExplanationFallback | main.js:158-159 | with no contradicted claim, the stock phrase is quoted instead |
| Analysis.QuotesRemark | main.js:159 | the drift remark puts the chosen phrase between double quotes inside the explanation |
| Analysis.QuotedIsFirstContradicted | main.js:158-159 | when no claim is empty and one is contradicted, the quoted phrase is the first contradicted claim |
| Analysis.InconsistentQuotesClaim | main.js:151-160 | for non-empty claims, prediction 0 means at least two contradicted claims, the quoted phrase is the first of them, and the explanation holds it between quotes |
| Analysis.AnalysisPrediction | main.js:102-107 | the reported prediction is 0 or 1, and 0 exactly when two of the reported claims are contradicted |
| Analysis.AnalysisClaims | main.js:90-100 | the report has one entry per segmented claim, in order, with that claim and its verdict |
| Analysis.AnalysisWithoutClaims | main.js:90-104 | a backstory without claims gives no entries and the prediction 1 |
| Analysis.AnalysisQuotesFirstContradiction | main.js:102-110 | when the prediction is 0, at least two claims are contradicted, the quoted phrase is the first contradicted claim (so never the stock phrase), and the report's explanation holds it between quotes |
| Analysis.ScoreProfile | main.js:82-87 | the profile is the four trait levels, each scored on its own keyword list |
| Analysis.SimulateAnalysis | main.js:78-112 | the returned report is the profile, the evaluated claims, the prediction and the explanation that the specification functions define |

## Left out

- The page wiring is not modelled: DOM lookups, event handlers, button state and error display (main.js:1-36).
- The staged "reasoning" messages and their delays (main.js:38-74) only pace the UI, so they are not modelled. `performReasoning` ends by calling the analysis, which is modelled.
- Rendering of the results and the submit handler that calls the engine (main.js:163-227) are not modelled.
- There is no future-behaviour projection or follow-up question answering. `main.js` does not implement either, so neither is modelled.
- Text.ToLower: only ASCII letters change case. JavaScript's full Unicode case mapping, including mappings that change length, is not modelled.
- Text.ToUpper: the same restriction to ASCII letters applies.
- Lengths count Unicode characters. JavaScript counts UTF-16 code units, so the 10-character and 4-character thresholds can differ for text outside the Basic Multilingual Plane.
- Evaluation.Overlap: `split(/\s+/)` is modelled as a split at every single whitespace character. This differs from the regular expression only by extra empty pieces, which the length filter drops.
