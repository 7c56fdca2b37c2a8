# Grocery offers: the matching engine, modelled and proved in Dafny

The grocery-offers page (`src/App.jsx`) has a matching engine inside its
React component. It reads a free-text query and answers with a ranked,
sectioned list of payment instruments: credit cards, debit cards, UPI
providers and net-banking providers. The user then picks one instrument,
either from that list or from a chip strip. The engine resolves the pick
to the offers that mention it, source by source: Permanent, Blinkit,
Swiggy Instamart, Zepto and BigBasket. No offer is shown twice.

The project models that engine in four layers.

- **Text and entity helpers** (`text.dfy`, `entities.dfy`, `names.dfy`, `brand.dfy`)
  - `toNorm`, `firstField`, `splitList`.
  - `getBase` and `getVariant`, with regular-expression leftmost-match semantics.
  - `brandCanonicalize`: eight whole-word, case-insensitive global replacements, applied in order.
- **Similarity** (`similarity.dfy`)
  - `lev`: a method that fills a two-dimensional `array2` row by row. It is proved equal to the edit-distance recurrence over the normalised inputs.
  - `scoreCandidate`, as exact `real` arithmetic.
  - `isFuzzyNameMatch`: a method with its nested loops and early returns. It is proved equal to a declarative predicate.
- **Catalog and suggestions** (`catalog.dfy`, `ordering.dfy`, `ranking.dfy`)
  - The card-list and chip builders. They update insertion-ordered maps in place: `DisplayMap`, a class whose fields are the key order and the key-to-display map. The first display filed under a key wins.
  - Sorting the maps' values.
  - `makeEntry`.
  - `onChangeQuery`, stated as a function from the query and the four entry lists to the section list and the `noMatches` flag. It covers scoring, filtering, ranking, the cap at `MAX_SUGGESTIONS`, the select-intent stable partition (`reorderBySelect` is a method over two accumulators) and the payment-intent section order.
- **Offer resolution** (`offers.dfy`)
  - `normalizeUrl` and `offerKey`.
  - `matchesFor`: a method with its row loop and its inner search loop with `break`.
  - `selectedTypeForRetail` and the chip-click selection.
  - `dedupWrappers`: a method that updates a `SeenKeys` object in place, threaded through the five sources.
  - `hasAny`.
  - `isUsableImage`, `getFallbackImage` (a loop with an early return) and `resolveImage`.

Data rows of the CSV files are maps from column name to cell text.

Characters are modelled as ASCII for case:
- `toLowerCase` maps `A`–`Z` only;
- `\w` is `[A-Za-z0-9_]`;
- `\s` is JavaScript's white-space set.

`localeCompare` is modelled as lexicographic order on character codes. `Array.prototype.sort` is a stable insertion sort, proved sorted and a permutation. Scores are exact rationals (`real`).

Behaviour worth knowing:

- The payment intents are raw substring tests on the lower-cased query, checked in the order UPI, net banking, debit.
  - Any query holding `dc` counts as debit intent. `hdfc` does not hold it: its letters run d-f-c.
  - `pnb` holds `nb`, so the query `pnb`, in any case, opens with the net banking section when it has entries (`Ranking.PnbIsNetBankingIntent`). A longer query such as `pnb upi` has the UPI intent too, and UPI comes first.
- `makeEntry` applies `getBase` again to a display that is already a base.
  - A name listed as `b (v) (w)` is shown in the chip strip as `b (v)`.
  - Its dropdown entry shows `b` and is keyed by `toNorm(b)` (`Catalog.MakeEntryRestrips`).
  - For a display without a trailing group, `makeEntry` keeps the display and the catalog's key (`Catalog.MakeEntryOfPlainDisplay`).

## Model

| member | source | states |
|---|---|---|
| Text.LowerChar | src/App.jsx:58 | lower-casing one character leaves no upper-case letter, keeps word and white-space characters what they were, and changes nothing that is not upper case |
| Text.IsWordChar | src/App.jsx:60 | `\w`: an ASCII letter, digit or underscore |
| Text.IsSpace | src/App.jsx:60-61 | `\s`: the ECMAScript white-space and line-terminator characters, the set `trim` also removes |
| Text.Lower | src/App.jsx:58 | `toLowerCase` keeps the length and lower-cases each character in place |
| Text.Punct | src/App.jsx:60 | every character that is neither a word character nor white space becomes a space (it is not deleted); others are kept, length unchanged |
| Text.TrimStart | src/App.jsx:62 | removes exactly the leading run of white space: the result is a suffix, starts with a non-space, and everything removed was white space |
| Text.TrimEnd | src/App.jsx:62 | removes exactly the trailing run of white space: the result is a prefix, ends with a non-space, and everything removed was white space |
| Text.Trim | src/App.jsx:62 | `trim` never lengthens text and leaves no white space at either end |
| Text.TrimLacks | src/App.jsx:84 | trimming introduces no character that was not there |
| Text.TrimIdempotent | src/App.jsx:62 | trimming twice is trimming once |
| Text.TrimmedFixed | src/App.jsx:62 | text with no white space at either end is its own trim |
| Text.Collapse | src/App.jsx:61 | `\s+` → single space: never lengthens, empty exactly for empty input, and begins with a space exactly when the input begins with white space |
| Text.ToNorm | src/App.jsx:56-62 | `toNorm` never lengthens its input |
| Text.CollapseShape | src/App.jsx:60-61 | collapsing text made of lower-case word characters and white space leaves lower-case word characters separated by single spaces |
| Text.PunctLowerShape | src/App.jsx:58-60 | after lower-casing and replacing punctuation only lower-case word characters and white space remain |
| Text.TrimSpaced | src/App.jsx:62 | trimming singly-spaced text leaves the normalised shape |
| Text.ToNormNormalized | src/App.jsx:56-62 | every `toNorm` result is lower-case word characters separated by single spaces, with no space at either end |
| Text.CollapseFixed | src/App.jsx:61 | singly-spaced text has nothing to collapse |
| Text.NormalizedLowerPunct | src/App.jsx:58-60 | lower-casing and replacing punctuation changes no normalised text |
| Text.NormalizedTrim | src/App.jsx:62 | normalised text is already trimmed |
| Text.NormalizedIffFixed | src/App.jsx:56-62 | `toNorm(n) == n` exactly when `n` has the normalised shape (both directions) |
| Text.ToNormIdempotent | src/App.jsx:56-62 | `toNorm` is idempotent, so `lev` re-normalising normalised text changes nothing |
| Text.Contains | src/App.jsx:143 | `includes`: `t` occurs at some position of `s`; `Text.ContainsAt` and `Text.ContainsWitness` prove both directions of that reading |
| Text.ContainsAt | src/App.jsx:143 | `includes` finds `t` whenever some window of `s` equals `t` |
| Text.ContainsWitness | src/App.jsx:143 | whenever `includes` finds `t` there is a window of `s` equal to `t` |
| Text.Split | src/App.jsx:83 | `split` with a one-character separator gives at least one piece, no piece holds the separator, and joining the pieces with it gives the input back |
| Text.SplitNoSep | src/App.jsx:83 | text without the separator splits into itself alone |
| Text.SplitAtSep | src/App.jsx:83 | a separator splits text into the part before it followed by the split of the part after it |
| Text.SplitJoin | src/App.jsx:83 | splitting undoes joining when no piece holds the separator |
| Text.NonEmpty | src/App.jsx:85 | `filter(Boolean)` keeps exactly the non-empty pieces, in their order: the result is a subsequence of the input, every kept piece is non-empty, and every non-empty piece is kept |
| Text.Words | src/App.jsx:145-146 | `split(" ").filter(Boolean)` gives non-empty words without spaces |
| Text.NonEmptyKeeps | src/App.jsx:85 | dropping blanks keeps a list that has none |
| Text.SplitNormalizedNonEmpty | src/App.jsx:145-146 | splitting normalised non-empty text at single spaces leaves no empty piece |
| Text.WordsJoin | src/App.jsx:145-146 | the words of normalised text, joined by single spaces, give the text back, so `split(" ").filter(Boolean)` loses nothing |
| Entities.FirstPresent | src/App.jsx:64-77 | the position of the first alias (from a start) whose cell exists and is not blank; none exactly when no later alias has such a cell |
| Entities.FirstField | src/App.jsx:64-77 | `firstField` is undefined exactly when no alias has a non-blank cell; otherwise the value it gives is not blank |
| Entities.NewlinesToSpaces | src/App.jsx:82 | every newline becomes a space, nothing else changes |
| Entities.TrimAll | src/App.jsx:84 | each piece trimmed, in order |
| Entities.SplitList | src/App.jsx:79-86 | `splitList` of a missing or empty cell is `[]`; every entry is non-empty, trimmed, and holds no comma and no newline |
| Entities.JoinList | src/App.jsx:79-86 | writing names as a list cell introduces no newline |
| Entities.Padded | src/App.jsx:84 | every name after a comma carries the space that follows the comma |
| Entities.SplitLacks | src/App.jsx:83 | no piece of a split holds a character the text does not hold |
| Entities.TrimAllClean | src/App.jsx:84 | trimmed pieces without comma or newline are trimmed and still without comma or newline |
| Entities.SplitJoinList | src/App.jsx:83 | splitting a `", "`-joined cell at commas gives the first name and each later name with its leading space |
| Entities.SplitListUnfold | src/App.jsx:79-86 | `splitList` of a non-empty cell is: newlines to spaces, split at commas, trim, drop blanks |
| Entities.NoNewlinesFixed | src/App.jsx:82 | text without newlines is unchanged by the newline replacement |
| Entities.TrimPadded | src/App.jsx:84 | trimming a clean name with its leading space gives the name |
| Entities.TrimAllJoined | src/App.jsx:84 | trimming the pieces of a joined cell of clean names gives the names |
| Entities.SplitListJoinList | src/App.jsx:79-86 | `splitList` gives back, in order, the clean names a list cell was written from |
| Names.CloseFrom | src/App.jsx:91 | the first `)` at or after a position, or none: where `[^)]*\)` stops |
| Names.SkipSpaces | src/App.jsx:91 | the end of the greedy `\s*` run from a position: all white space before it, a non-space or the end at it |
| Names.FirstGroupFrom | src/App.jsx:91 | the leftmost start at which `\s*\([^)]*\)\s*$` matches, or none when no start matches |
| Names.Base | src/App.jsx:89-92 | `getBase` never lengthens the name and leaves no white space at either end |
| Names.VariantAt | src/App.jsx:97 | a match of `\(([^)]+)\)\s*$` at a position starts with `(`, has non-empty inner text, and ends at a `)` |
| Names.FirstVariantFrom | src/App.jsx:97 | the leftmost match of `getVariant`'s pattern at or after a position, or none when no position matches |
| Names.Variant | src/App.jsx:95-99 | `getVariant` gives trimmed text no longer than the name (`""` when there is no group) |
| Names.NamedShape | src/App.jsx:88 | the layout of a name written `base (variant)` |
| Names.NoCloseAtEnd | src/App.jsx:91 | a `(` inside a base that closes its own parentheses is closed before the end, and text follows |
| Names.NoGroupInside | src/App.jsx:91 | no position inside such a base starts a match of `getBase`'s pattern |
| Names.GroupAtBaseEnd | src/App.jsx:91 | the pattern matches right after the base of `base (variant)` |
| Names.BaseOfNamed | src/App.jsx:88-92 | `getBase("b (v)") == b` for a trimmed base that closes its parentheses and a variant without `)` |
| Names.NoVariantInside | src/App.jsx:97 | no position inside such a base starts a match of `getVariant`'s pattern |
| Names.VariantOfNamed | src/App.jsx:94-99 | `getVariant("b (v)")` is `v` trimmed |
| Names.TrimEndAtClose | src/App.jsx:91 | trailing white space after a final non-space starts right after it |
| Names.CloseEndsTrimmed | src/App.jsx:91 | a `)` followed only by white space is the last character once trailing space is trimmed |
| Names.GroupEndsTrimmed | src/App.jsx:91 | text that `getBase`'s pattern matches ends with `)` once trimmed |
| Names.VariantEndsTrimmed | src/App.jsx:97 | text that `getVariant`'s pattern matches ends with `)` once trimmed |
| Names.NoGroupWhenOpen | src/App.jsx:91 | text whose last non-blank character is not `)` has no match of `getBase`'s pattern |
| Names.NoVariantWhenOpen | src/App.jsx:97 | text whose last non-blank character is not `)` has no match of `getVariant`'s pattern |
| Names.NoTrailingGroup | src/App.jsx:88-99 | a name without a trailing group comes back trimmed from `getBase`, and `getVariant` is `""` |
| Names.RegaliaSpelling | src/App.jsx:88 | the documented example name is written `base (variant)` |
| Names.RegaliaBase | src/App.jsx:88 | `getBase("HDFC Regalia (Visa Signature)") == "HDFC Regalia"` |
| Names.RegaliaVariant | src/App.jsx:94 | `getVariant("HDFC Regalia (Visa Signature)") == "Visa Signature"` |
| Names.EndsClosed | src/App.jsx:91 | text ending in `)` closes every `(` it holds |
| Names.NamedIsBase | src/App.jsx:88-92 | a written name with a non-blank trimmed base is trimmed and closes its parentheses |
| Names.BaseTwice | src/App.jsx:88-92 | `getBase` removes at most one trailing group: `b (v) (w)` loses `(w)`, and a second application loses `(v)` |
| Brand.ReplaceFrom | src/App.jsx:104-111 | the global replacement from a position keeps the length of what it scans |
| Brand.Replace | src/App.jsx:104-111 | one replacement pass keeps the length of the text |
| Brand.BankRulesWellFormed | src/App.jsx:105-106 | the ICICI and HDFC spellings differ from their tokens in letter case only |
| Brand.StateBankRulesWellFormed | src/App.jsx:107-108 | the SBI and IDFC spellings differ from their tokens in letter case only |
| Brand.TravelRulesWellFormed | src/App.jsx:104-109 | the MakeMyTrip and PNB spellings differ from their tokens in letter case only |
| Brand.ShortRulesWellFormed | src/App.jsx:110-111 | the RBL and YES spellings differ from their tokens in letter case only |
| Brand.BrandRules | src/App.jsx:104-111 | the eight passes in source order, each a lower-case token and its canonical spelling; `Brand.BrandRulesWellFormed` proves every pass changes letter case only |
| Brand.MatchAt | src/App.jsx:104-111 | the whole-word, case-insensitive match of one `\btoken\b` pattern at a position; its properties are stated by `Brand.MatchAtLower` and `Brand.Hits` |
| Brand.ApplyRules | src/App.jsx:102-113 | the replacements run one after the other, in the listed order; `Brand.ApplyRulesOverlay` states what the passes leave |
| Brand.BrandCanonicalize | src/App.jsx:102-113 | `brandCanonicalize` as the eight rules applied in order; `Brand.CanonicalizeKeepsLower`, `Brand.CanonicalizeKeepsNorm` and `Brand.CanonicalizeIdempotent` state what it keeps |
| Brand.BrandRulesWellFormed | src/App.jsx:102-113 | all eight passes replace a token by a spelling of it in other letter case |
| Brand.HitsFrom | src/App.jsx:104-111 | what one pass writes at each position, found by the same left-to-right scan; one entry per position |
| Brand.Overlay | src/App.jsx:104-111 | writing hits over text changes exactly the positions with a hit |
| Brand.ReplaceIsOverlay | src/App.jsx:104-111 | a pass is its hits written over the text, and nothing else changes |
| Brand.MatchAtLower | src/App.jsx:104-111 | whether `\btoken\b` matches under the `i` flag depends only on the lower-cased text |
| Brand.HitsFromLower | src/App.jsx:104-111 | a pass finds the same hits in the text and in its lower-cased form |
| Brand.CanonFits | src/App.jsx:104-111 | a matched token's replacement lower-cases to the text it replaces |
| Brand.HitsFit | src/App.jsx:104-111 | every hit of a pass lower-cases to the character it overwrites |
| Brand.OverlayLower | src/App.jsx:104-111 | writing such hits over text leaves its lower-cased form unchanged |
| Brand.Hits | src/App.jsx:104-111 | a pass has one hit entry per position of the text |
| Brand.ReplaceFacts | src/App.jsx:104-111 | a pass writes the hits found in the lower-cased text, and changes letter case only |
| Brand.AllHits | src/App.jsx:102-113 | one hit list per pass, each as long as the text |
| Brand.OverlayAll | src/App.jsx:102-113 | writing the passes' hits one after another keeps the length |
| Brand.ApplyRulesOverlay | src/App.jsx:102-113 | running the passes in order writes hits that all come from the original lower-cased text, and changes letter case only |
| Brand.OverlayAllAt | src/App.jsx:102-113 | each position ends with its last pass's hit, or keeps its character |
| Brand.OverlayAllTwice | src/App.jsx:102-113 | writing the same hits a second time changes nothing |
| Brand.CanonicalizeKeepsLower | src/App.jsx:102-113 | `brandCanonicalize` changes letter case only |
| Brand.CanonicalizeKeepsNorm | src/App.jsx:102-113 | `toNorm(brandCanonicalize(s)) == toNorm(s)` |
| Brand.CanonicalizeIdempotent | src/App.jsx:102-113 | applying `brandCanonicalize` twice equals applying it once |
| Similarity.Lev | src/App.jsx:116-137 | `lev(a, b)` (normalise, answer directly when one side is empty, else fill the table) equals the edit distance of the normalised inputs |
| Similarity.Levenshtein | src/App.jsx:116-137 | the edit distance between the normalised inputs, the value `Similarity.Lev` is proved to return; its symmetry and bounds are the `EditDistance` lemmas below |
| Similarity.EditDistance | src/App.jsx:123-136 | the table recurrence: the empty prefix costs the other length, and each cell is the least of a deletion, an insertion and a substitution costing 0 for equal characters; `Similarity.FillTable` proves the table holds it |
| Similarity.FillTable | src/App.jsx:123-136 | the last cell of the filled table is the edit distance |
| Similarity.InitBorders | src/App.jsx:124-125 | column 0 holds `i` and row 0 holds `j` |
| Similarity.FillRow | src/App.jsx:127-134 | filling row `i` from the row above makes every cell up to row `i` the edit distance of the two prefixes, and keeps column 0 |
| Similarity.DistSamePrefix | src/App.jsx:116-137 | equal prefixes are at distance 0 |
| Similarity.EditDistanceSelf | src/App.jsx:116-137 | `lev(a, a) == 0` |
| Similarity.DistSymmetric | src/App.jsx:126-135 | the prefix distance is the same with the arguments swapped |
| Similarity.EditDistanceSymmetric | src/App.jsx:116-137 | `lev` is symmetric |
| Similarity.DistAtMostMax | src/App.jsx:126-135 | a prefix distance never exceeds the longer prefix length |
| Similarity.EditDistanceAtMostMax | src/App.jsx:116-137 | `lev` never exceeds the longer normalised length |
| Similarity.DistAtLeastDiff | src/App.jsx:126-135 | a prefix distance is at least the difference of the prefix lengths |
| Similarity.EditDistanceAtLeastDiff | src/App.jsx:116-137 | the distance is at least the difference of the lengths |
| Similarity.EditDistanceEmpty | src/App.jsx:121-122 | the distance to or from the empty string is the length of the other side |
| Similarity.LevenshteinNormalized | src/App.jsx:117-118 | `lev` compares normalised text as it is |
| Similarity.LevenshteinOfNorm | src/App.jsx:117-118 | normalising the arguments first makes no difference to `lev` |
| Similarity.DistDeleteOne | src/App.jsx:126-135 | dropping one character is within one edit, prefix by prefix |
| Similarity.EditDistanceDeleteOne | src/App.jsx:116-137 | deleting one character is one edit |
| Similarity.MatchingWords | src/App.jsx:148-150 | the count of query words contained in some candidate word is at most the number of query words |
| Similarity.ScoreCandidate | src/App.jsx:139-154 | `scoreCandidate` is 0 for an empty normalised query, 100 when the normalised candidate contains the query, and otherwise in [0, 1] |
| Similarity.SimInUnit | src/App.jsx:151 | `1 - lev / max(lengths)` lies in [0, 1] |
| Similarity.Sim | src/App.jsx:151 | one minus the distance over the longer length; `Similarity.SimInUnit` proves it lies between 0 and 1 |
| Similarity.LevenshteinBound | src/App.jsx:116-137 | `lev(x, y)` never exceeds the longer raw length |
| Similarity.ScoreHundredIffContains | src/App.jsx:142-143 | the score is exactly 100 when, and only when, the normalised query is non-empty and the normalised candidate contains it |
| Similarity.CloseToExists | src/App.jsx:176-181 | the inner word loop succeeds exactly when some name word is similar to the query word |
| Similarity.CloseWordsExists | src/App.jsx:174-182 | the per-word rule holds exactly when some pair of words (each at least 3 long) has similarity at least 0.7 |
| Similarity.FuzzyNameMatch | src/App.jsx:157-184 | `isFuzzyNameMatch` as run (early returns, loops) is false when either side normalises to empty and true exactly on containment, whole similarity ≥ 0.6 or a similar word pair |
| Similarity.IsFuzzyNameMatch | src/App.jsx:157-184 | a match is a containment, an overall similarity of at least 0.6, or a close pair of words, both inputs non-blank; `Similarity.FuzzyNameMatch` is proved to compute it |
| Similarity.AnyCloseWords | src/App.jsx:174-182 | the outer loop (skipping words shorter than 3) returns the per-word rule |
| Similarity.ShortNotClose | src/App.jsx:175 | a query word shorter than 3 characters is close to no name word |
| Similarity.AnyCloseTo | src/App.jsx:176-181 | the inner loop (skipping name words shorter than 3) returns whether some name word is similar |
| Similarity.OneDeletionIsFuzzy | src/App.jsx:165-168 | a one-character typo in a normalised name of at least five characters has similarity ≥ 0.8 and is a fuzzy match |
| Similarity.SelectTypoExample | src/App.jsx:156 | `isFuzzyNameMatch("selct", "select")` holds |
| Ordering.StrLeTotal | src/App.jsx:351-356 | any two names are ordered one way or the other |
| Ordering.StrLeTransitive | src/App.jsx:351-356 | the name order is transitive |
| Ordering.StrLeAntisymmetric | src/App.jsx:351-356 | names ordered both ways are equal |
| Ordering.StrLe | src/App.jsx:351-356 | `localeCompare` read as order on character codes: a prefix sorts first, otherwise the first differing character decides; the three lemmas above make it a total order |
| Ordering.InsertString | src/App.jsx:351-356 | inserting a name adds exactly that name |
| Ordering.InsertStringSorted | src/App.jsx:351-356 | inserting into a sorted list keeps it sorted |
| Ordering.SortStrings | src/App.jsx:351-356 | the sort is a permutation of its input |
| Ordering.SortStringsSorted | src/App.jsx:351-356 | `sort((a, b) => a.localeCompare(b))` yields the names in order, losing and adding none |
| Ranking.ScoreEntry | src/App.jsx:491-500 | the substring flag is the raw case-insensitive containment and the fuzzy flag is the fuzzy name match; the boosted score is non-negative, at least 2 for a substring hit, at least 1.5 for a fuzzy hit, and at most 1 with neither |
| Ranking.ScoreAll | src/App.jsx:491-500 | every entry scored, in order |
| Ranking.Keep | src/App.jsx:502 | the filter keeps a substring hit, a fuzzy hit, or a score above 0.3 |
| Ranking.Survivors | src/App.jsx:502 | the filter keeps only entries with a substring hit, a fuzzy hit or a score above 0.3, and adds none |
| Ranking.SurvivorsComplete | src/App.jsx:502 | every entry passing the filter survives it |
| Ranking.RankLeTotal | src/App.jsx:503 | any two scored entries are ranked one way or the other |
| Ranking.RankLeTransitive | src/App.jsx:503 | the ranking order (higher score, then smaller display) is transitive |
| Ranking.RankLe | src/App.jsx:503 | higher score first, equal scores by `localeCompare` of the displays; `Ranking.RankLeTotal` and `Ranking.RankLeTransitive` make it a total preorder |
| Ranking.InsertRanked | src/App.jsx:503 | inserting a scored entry adds exactly that entry |
| Ranking.InsertRankedSorted | src/App.jsx:503 | inserting into a ranked list keeps it ranked |
| Ranking.SortRanked | src/App.jsx:503 | the sort is a permutation of the survivors |
| Ranking.SortRankedSorted | src/App.jsx:503 | the sort puts the survivors in ranking order |
| Ranking.Cap | src/App.jsx:504 | `slice(0, MAX_SUGGESTIONS)` is a prefix of length min(n, 50) |
| Ranking.Top | src/App.jsx:489-505 | the scored survivors, ranked and capped; `Ranking.TopFacts` and `Ranking.TopComplete` state its properties |
| Ranking.Suggested | src/App.jsx:505 | `scored(arr)` is the entries of the ranked, capped survivors, in order |
| Ranking.CutFacts | src/App.jsx:503-504 | cutting a ranked list splits its elements, and nothing after the cut ranks above anything before it |
| Ranking.CapFacts | src/App.jsx:503-504 | the capped list is ranked, holds min(n, 50) survivors, all of them when there are at most 50, and none left out ranks above one kept |
| Ranking.TopFacts | src/App.jsx:489-505 | one kind's top list is ranked, capped at 50, complete when at most 50 survive, never skips a better entry, and holds only entries of that kind, each scored against the query and passing the filter |
| Ranking.TopComplete | src/App.jsx:489-505 | an entry that passes the filter is suggested when at most 50 do |
| Ranking.HitsFirst | src/App.jsx:496-503 | substring and fuzzy hits come before entries kept only for their score |
| Ranking.SelectTypoIsSelectLike | src/App.jsx:522-528 | a one-letter slip in `select` (`selct`, `slect`, `selec`, ...) still counts as a select word |
| Ranking.SelectLike | src/App.jsx:522-528 | a query word is `select`, or at least 3 long with similarity at least 0.7 to it; `Ranking.SelectTypoIsSelectLike` shows every one-letter slip qualifies |
| Ranking.HasSelectWord | src/App.jsx:522-528 | some word of the normalised query reads as `select`; `Ranking.SelectTypoIsSelectLike` shows one-letter slips count |
| Ranking.SelectIntent | src/App.jsx:530-533 | the select intent is either phrase or a select-like word |
| Ranking.PartStep | src/App.jsx:539-543 | reading one more element adds it to the part its test picks |
| Ranking.PartCounts | src/App.jsx:536-545 | the two parts together hold exactly the input's elements |
| Ranking.PartTest | src/App.jsx:539-543 | every element of a part passes or fails the test as that part requires |
| Ranking.Partition | src/App.jsx:536-545 | the two parts one after the other lose and add nothing, with every passing element first |
| Ranking.SelectFirstPartition | src/App.jsx:536-545 | the select reorder is a permutation that puts every entry whose normalised name contains `select` before every other |
| Ranking.IsSelectCard | src/App.jsx:540-541 | the normalised display contains `select` |
| Ranking.ReorderBySelect | src/App.jsx:536-545 | `reorderBySelect` as run (one pass pushing into two arrays) is the stable partition |
| Ranking.DebitIntent | src/App.jsx:554-555 | raw substring tests for `debit card`, `debit` or `dc` on the lower-cased query |
| Ranking.UpiIntent | src/App.jsx:556 | a raw substring test for `upi` |
| Ranking.NetBankingIntent | src/App.jsx:557-560 | raw substring tests for `net banking`, `netbanking` or `nb` |
| Ranking.SectionOrder | src/App.jsx:576-582 | the section order always lists the four kinds once each; which kind leads is stated by the `Respond...First` lemmas |
| Ranking.Cards | src/App.jsx:571 | the entries of a section, in order |
| Ranking.SectionLabel | src/App.jsx:563-566 | the four headings: Credit Cards, Debit Cards, UPI, Net Banking |
| Ranking.SectionsHeading | src/App.jsx:568-574 | a heading is shown for exactly the kinds in the order that have entries |
| Ranking.SectionsCard | src/App.jsx:568-574 | an entry is shown exactly when it is in the list of a kind in the order |
| Ranking.SectionsEmpty | src/App.jsx:568-574 | the section list over all four kinds is empty exactly when every kind is |
| Ranking.EmptySections | src/App.jsx:568-574 | no kind with entries gives no sections |
| Ranking.Sections | src/App.jsx:568-574 | each kind in the order gives its heading and entries, or nothing; `Ranking.SectionsHeading` and `Ranking.SectionsCard` state what is shown |
| Ranking.SuggestBlank | src/App.jsx:480-484 | a blank query gives no sections and `noMatches` false |
| Ranking.ReorderedKeeps | src/App.jsx:546-549 | the select reorder keeps each kind's entries and its emptiness |
| Ranking.ReorderedAllEmpty | src/App.jsx:546-549 | the reorder leaves every kind empty exactly when all were |
| Ranking.Respond | src/App.jsx:507-585 | the dropdown for a non-blank query: `noMatches` when all lists are empty, else the sections in intent order, with Select cards first under the select intent |
| Ranking.RespondSections | src/App.jsx:507-585 | `noMatches` is set, and the list is empty, exactly when all four kinds are empty; a heading is shown for exactly the kinds with entries |
| Ranking.RespondCards | src/App.jsx:507-585 | an entry is shown exactly when it is on one of the four top lists |
| Ranking.RespondLeads | src/App.jsx:568-585 | the kind the section order puts first opens the dropdown with its heading when it has entries |
| Ranking.RespondDebitFirst | src/App.jsx:553-585 | a debit-intent query without UPI or net-banking intent opens with the debit section when it has entries |
| Ranking.RespondUpiFirst | src/App.jsx:553-585 | a UPI-intent query opens with the UPI section when it has entries |
| Ranking.RespondNetBankingFirst | src/App.jsx:553-585 | a net-banking-intent query without UPI intent opens with the net banking section when it has entries |
| Ranking.RespondCreditFirst | src/App.jsx:553-585 | a query with none of the three intents opens with the credit card section when it has entries |
| Ranking.SuggestShows | src/App.jsx:475-586 | for a non-blank query, `onChangeQuery` shows exactly the top lists' entries, a heading per non-empty kind, and sets `noMatches` exactly when all are empty |
| Ranking.Suggest | src/App.jsx:475-586 | `onChangeQuery`: a blank query clears the list, any other shows the response for its top lists; `Ranking.SuggestBlank` and `Ranking.SuggestShows` state both cases |
| Ranking.PnbIsNetBankingIntent | src/App.jsx:553-585 | the query `pnb`, in any case, has net-banking intent and no UPI intent, so it opens with the net banking section when that has entries |
| Catalog.MakeEntry | src/App.jsx:187-190 | an entry keeps its kind and its key is normalised text |
| Catalog.Entries | src/App.jsx:351-356 | `map(makeEntry)` over the sorted displays, in order |
| Catalog.ListingKeyed | src/App.jsx:337-338 | each builder files a name under `toNorm` of the display it shows |
| Catalog.CanonicalBase | src/App.jsx:337-338 | a listed name as the catalog shows it, `brandCanonicalize(getBase(raw))`; `Catalog.CanonicalBaseShape` states it is trimmed and canonical |
| Catalog.KeyOf | src/App.jsx:337-338 | the key a listed name files under, `toNorm` of its shown display; `Catalog.ListingKeyed` states each name is filed under it |
| Catalog.AddNamesCons | src/App.jsx:418-421 | harvesting a list harvests its head first |
| Catalog.Values | src/App.jsx:351 | `Array.from(map.values())` lists each key's display in insertion order |
| Catalog.Put | src/App.jsx:421 | `map.set(key, map.get(key) or base)`: an existing non-empty display wins; `Catalog.PutInv` and `Catalog.PutKeys` state what it keeps |
| Catalog.Add | src/App.jsx:418-421 | one listed name is filed under its key unless the key is empty; `Catalog.AddInv` and `Catalog.AddKeys` state its effect |
| Catalog.AddNames | src/App.jsx:417-423 | the names are filed in list order; `Catalog.AddNamesKeys` and `Catalog.AddNamesFirstWins` state its effect |
| Catalog.AddRows | src/App.jsx:425-439 | every row's list cell is split and filed, row by row; `Catalog.AddRowsInv` states the invariant it keeps |
| Catalog.AddPermanent | src/App.jsx:448-455 | every permanent offer's name cell is filed whole; `Catalog.AddPermanentInv` states the invariant it keeps |
| Catalog.PutInv | src/App.jsx:421 | setting a key to its existing display, or else to `base`, with a non-empty key of its non-empty base keeps the invariant, never reorders keys and never replaces a display |
| Catalog.PutNewValid | src/App.jsx:421 | filing a new key keeps keys in insertion order, each once |
| Catalog.AddInv | src/App.jsx:418-421 | filing one name keeps the invariant, the key order and every display |
| Catalog.AddNamesInv | src/App.jsx:417-423 | `harvestList` keeps the invariant, never reorders keys and never replaces a display |
| Catalog.AddNamesKeys | src/App.jsx:417-423 | a key is in the map after `harvestList` exactly when it was before or some listed name files under it |
| Catalog.AddKeys | src/App.jsx:419-421 | one name adds at most its own non-empty key, showing its own display |
| Catalog.PutKeys | src/App.jsx:421 | setting a key to its existing display, or else to `base`, adds at most `key`, and a new key shows `base` |
| Catalog.AddNamesFirstWins | src/App.jsx:417-423 | a new key shows the display of the first listed name filed under it |
| Catalog.AddRowsInv | src/App.jsx:425-439 | harvesting every row keeps the invariant |
| Catalog.AddPermanentInv | src/App.jsx:448-455 | the permanent offers' loop keeps the invariant |
| Catalog.ValuesDistinctNorms | src/App.jsx:457-460 | no two displays of a map built this way normalise alike |
| Catalog.DistinctNormsPermutation | src/App.jsx:457-460 | sorting keeps the displays pairwise distinct after normalising |
| Catalog.DistinctNormsDistinct | src/App.jsx:457-460 | displays that normalise differently are different |
| Catalog.StripFacts | src/App.jsx:457-460 | a chip strip is sorted, holds exactly the map's displays, and shows one name per normalised base |
| Catalog.DisplayMap.constructor | src/App.jsx:412 | `new Map()` is empty |
| Catalog.DisplayMap.Set | src/App.jsx:421 | the map after setting `key` to its existing display, or else to `base`: a non-empty display is never replaced, and an empty one is, as with `map.get(key) or base` |
| Catalog.DisplayMap.Harvest | src/App.jsx:419-421 | the map after filing one listed name |
| Catalog.DisplayMap.HarvestList | src/App.jsx:417-423 | the map after `harvestList(val, map)` |
| Catalog.LoadAllCards | src/App.jsx:331-356 | the card-list builder's credit and debit entries: each map's displays, sorted, through `makeEntry` |
| Catalog.CardListEntries | src/App.jsx:351-356 | one kind's dropdown entries: the map's displays sorted, each through `makeEntry`; `Catalog.LoadAllCards` is proved to compute it |
| Catalog.ChipMap | src/App.jsx:411-455 | the chip maps (the four grocery files in order, permanent names for credit) keep the invariant |
| Catalog.ChipsSortedDistinct | src/App.jsx:457-470 | every chip strip is sorted and shows one name per normalised base |
| Catalog.ChipsSpec | src/App.jsx:457-470 | the four chip strips and the UPI and net-banking entry lists; `Catalog.BuildChips` is proved to compute it and `Catalog.ChipsSortedDistinct` states each strip is sorted and distinct |
| Catalog.HarvestRows | src/App.jsx:425-439 | `harvestRows` feeds every row's four list cells into the four maps, each map on its own |
| Catalog.HarvestPermanent | src/App.jsx:448-455 | the permanent loop files each row's whole name cell into the credit map |
| Catalog.BuildChips | src/App.jsx:411-471 | the chip effect's six outputs: four sorted strips and the UPI and net-banking entries |
| Catalog.CanonicalBaseShape | src/App.jsx:419 | a catalog display is trimmed and already canonical |
| Catalog.MakeEntryOfPlainDisplay | src/App.jsx:187-190 | for a display without a trailing group, `makeEntry` keeps the display and the catalog's key |
| Catalog.MakeEntryRestrips | src/App.jsx:187-190 | a name listed as `b (v) (w)` shows as `b (v)` in the catalog, but its entry shows `b` keyed by `toNorm(b)` |
| Offers.StripScheme | src/App.jsx:195 | removing `^https?:\/\/\/?` never lengthens the text |
| Offers.StripWww | src/App.jsx:195 | `^www\.` removed; `Offers.StripWwwPrefix` proves an address after `www.` is kept whole |
| Offers.DropSlash | src/App.jsx:196 | one trailing `/` removed; `Offers.StripUrlSlash` proves it |
| Offers.NormalizeUrl | src/App.jsx:192-198 | `normalizeUrl`; `Offers.NormalizeUrlFixed`, `Offers.NormalizeHostPath` and `Offers.UrlSpellingsAgree` state what it removes and what it keeps |
| Offers.NormalizeUrlFixed | src/App.jsx:192-198 | trimmed lower-case input reaches the replacements unchanged |
| Offers.PrefixedFixed | src/App.jsx:194 | a lower-case prefix before a host and path leaves the text trimmed and lower case |
| Offers.NormalizeHostPath | src/App.jsx:192-198 | `normalizeUrl` keeps a host and path as it is |
| Offers.StripUrlPrefixed | src/App.jsx:195-196 | the replacements remove `https://`, `http://`, `www.` or `https://www.` in front of a host and path |
| Offers.StripHttps | src/App.jsx:195 | `https://` is removed |
| Offers.StripHttp | src/App.jsx:195 | `http://` is removed |
| Offers.StripWwwPrefix | src/App.jsx:195 | a bare `www.` is not a scheme, and is removed |
| Offers.StripHttpsWww | src/App.jsx:195 | `https://www.` is removed |
| Offers.StripUrlSlash | src/App.jsx:196 | one trailing `/` is removed |
| Offers.UrlWith | src/App.jsx:192-198 | a prefix the replacements remove is removed by `normalizeUrl` |
| Offers.SchemeWith | src/App.jsx:192-198 | `normalizeUrl` removes each scheme prefix in front of a host and path |
| Offers.UrlSpellingsAgree | src/App.jsx:192-198 | `normalizeUrl` equates an address with or without `http://`, `https://`, `www.` or a trailing slash |
| Offers.SlashWith | src/App.jsx:196 | `normalizeUrl` drops a trailing slash |
| Offers.SlashFixed | src/App.jsx:194 | a host and path with a slash is already trimmed and lower case |
| Offers.FirstBar | src/App.jsx:209 | the first bar character lies within the text |
| Offers.SplitAtBars | src/App.jsx:209 | text before the first double-bar separator is recovered from the key when it holds no bar character |
| Offers.NormalizedNoBar | src/App.jsx:199-207 | normalised text holds no bar character |
| Offers.RenderTitleDesc | src/App.jsx:209 | keys rendered from parts whose title and description hold no bar character agree on those parts |
| Offers.TitleText | src/App.jsx:204-206 | the first non-blank title field, else the `Website` cell, else nothing |
| Offers.OfferKey | src/App.jsx:202-210 | `offerKey`, the normalised title, description, image and link joined by `||`; `Offers.OfferKeyTitleDesc` states that the key determines title and description |
| Offers.OfferKeyTitleDesc | src/App.jsx:202-210 | two offers with the same `offerKey` have the same normalised title and description |
| Offers.KeysByConcat | src/App.jsx:212-221 | the keys of two lists together are the keys of each |
| Offers.KeysByHas | src/App.jsx:212-221 | every element's key is among the keys |
| Offers.DedupBy | src/App.jsx:212-221 | the elements whose key is neither seen nor an earlier element's key, in order; `Offers.DedupByFacts` states what it keeps |
| Offers.DistinctConcat | src/App.jsx:674-681 | two lists without repeated keys and without a common key concatenate to one |
| Offers.DedupByFacts | src/App.jsx:212-221 | deduplication keeps elements in input order, never two with one key, none already seen, and one for every unseen key |
| Offers.ThreadStepKeys | src/App.jsx:674-681 | each next source's kept offers add exactly that source's unseen keys |
| Offers.ThreadStepDistinct | src/App.jsx:674-681 | each next source's kept offers extend the shown ones without repeating a key |
| Offers.DedupFacts | src/App.jsx:212-221 | `dedupWrappers` keeps offers in order, never repeats an `offerKey`, skips every seen key, and keeps one offer per unseen key |
| Offers.SeenKeys.constructor | src/App.jsx:674 | `new Set()` is empty |
| Offers.DedupWrappers | src/App.jsx:212-221 | `dedupWrappers` as run returns the deduplicated list, and `seen` grows by exactly the emitted keys |
| Offers.FirstVariantFacts | src/App.jsx:626-635 | a row matches exactly when one of its names files under the selection, and then gives the variant of the first such name |
| Offers.OffersOf | src/App.jsx:637 | the rows of the wrappers, in order |
| Offers.MatchesBySubseq | src/App.jsx:608-639 | the kept rows are the input rows with some left out, in order |
| Offers.MatchesByTagged | src/App.jsx:636-638 | every kept row carries the site and the variant the row gave |
| Offers.MatchesByComplete | src/App.jsx:608-639 | every matching row is kept |
| Offers.MatchesFacts | src/App.jsx:606-640 | `matchesFor` is `[]` without a selection and keeps rows in order with one |
| Offers.MatchesTagged | src/App.jsx:606-640 | each kept row mentions the selection and carries the site and its first matching mention's variant |
| Offers.MatchesComplete | src/App.jsx:606-640 | every row that mentions the selection is kept |
| Offers.Mentions | src/App.jsx:610-622 | the names a row mentions: the permanent offers' name cell taken whole, every other kind's list cell through `splitList` |
| Offers.Matches | src/App.jsx:606-640 | `matchesFor`'s result, empty without a selection; `Offers.MatchesFacts`, `Offers.MatchesTagged` and `Offers.MatchesComplete` state its properties |
| Offers.FindMention | src/App.jsx:626-635 | the inner loop with `break` finds the first mention filed under the selection and its variant |
| Offers.Picks | src/App.jsx:608-639 | each row's match, in order |
| Offers.CollectMatches | src/App.jsx:608-639 | collecting the matches one row at a time gives the kept rows |
| Offers.MatchRow | src/App.jsx:609-635 | the row loop's body: the row's names, searched by the inner loop, give the row's match |
| Offers.MatchesFor | src/App.jsx:606-640 | `matchesFor` as run equals its specification |
| Offers.MatchRows | src/App.jsx:608-639 | the row loop keeps exactly the matching rows, in order |
| Offers.ChipSelection | src/App.jsx:596-603 | a chip click selects the entry `makeEntry` builds for the chip's name |
| Offers.RetailKind | src/App.jsx:642-649 | `selectedTypeForRetail`: the selected kind, credit without a selection |
| Offers.RetailKindOf | src/App.jsx:642-649 | with no selection the grocery files are read through their credit lists, otherwise through the selected kind's |
| Offers.ResolveOffers | src/App.jsx:651-689 | the collection as run: each source's matches, then one deduplication pass; `hasAny` holds exactly when some source shows an offer |
| Offers.DedupAll | src/App.jsx:674-681 | one deduplication pass threaded through the sources in order, Permanent only for credit; `Offers.DedupAllFacts` states its effect |
| Offers.Resolve | src/App.jsx:651-681 | what is shown for a selection; `Offers.ResolveOffers` is proved to compute it and `Offers.ResolveDistinct` states that no key repeats |
| Offers.HasAny | src/App.jsx:683-689 | some source shows an offer |
| Offers.DedupSources | src/App.jsx:674-681 | one `seen` set, updated in place, threaded through the five sources in order |
| Offers.ResolveGates | src/App.jsx:651-689 | Permanent offers are shown only for a credit selection, and nothing is shown without a selection |
| Offers.DedupAllFacts | src/App.jsx:674-681 | across the sources no key is shown twice, and the keys shown are exactly those of the matches taken |
| Offers.ThreadKeys | src/App.jsx:674-681 | the kept lists show exactly the keys of the lists taken (Permanent's only for credit) |
| Offers.ThreadDistinct | src/App.jsx:674-681 | no key is kept twice across the five kept lists |
| Offers.ResolveDistinct | src/App.jsx:642-681 | the offers shown for a selection never repeat an `offerKey`, and every matching key is shown once |
| Offers.FirstWhere | src/App.jsx:236-246 | the found position lies within the table |
| Offers.FirstWhereFacts | src/App.jsx:236-246 | the search finds the first matching entry, and finds none only when none matches |
| Offers.IsUsableImage | src/App.jsx:224-230 | a present value that is non-blank once trimmed and is not one of the six placeholders, in any case |
| Offers.UsableImageIff | src/App.jsx:224-230 | a value is usable exactly when, trimmed, it is non-empty and spells no placeholder up to ASCII case, the whole-string test of the `i`-flagged pattern |
| Offers.UsableImageTrim | src/App.jsx:224-230 | surrounding white space does not change whether a value is usable |
| Offers.FallbackImage | src/App.jsx:232-247 | the logo of the first table site matching the normalised site name, or nothing; `Offers.FallbackImageFacts` states it |
| Offers.SiteMatches | src/App.jsx:238-242 | a table site matches when its normalised name equals the key or either contains the other |
| Offers.FallbackImageFacts | src/App.jsx:232-247 | a blank site has no fallback; otherwise the fallback is the logo of the first matching table site, and there is none only when no site matches |
| Offers.GetFallbackImage | src/App.jsx:232-247 | `getFallbackImage` as run (loop with early return) equals its specification |
| Offers.ResolveImage | src/App.jsx:250-257 | a usable image is kept; the fallback is used exactly when the image is unusable and a fallback exists |

## Left out

- Unicode: `normalize("NFKD")` and case mapping beyond ASCII `A`–`Z` are not modelled. Text is taken as already decomposed.
- `localeCompare` is modelled as lexicographic order on character codes, not locale collation.
- `Array.prototype.sort` is modelled as a stable insertion sort. Only "sorted and a permutation" is claimed of the source's sort; a tie-break beyond the ranking order is not.
- Scores are exact rationals: IEEE-754 rounding of the ratios is not modelled.
- React state, effects and rendering are not modelled: `OfferCard`, `Disclaimer`, the dropdown, the marquee chips, `VARIANT_NOTE_SITES`, the resize listener. The setters of `onChangeQuery` are modelled as the function's outputs.
- `onPick` and the initial dropdown after loading (`src/App.jsx:358-375`) only set UI state and are not modelled.
- Loading the CSV files (axios, Papa.parse, `Promise.all`) is I/O through foreign libraries. Rows are inputs instead: maps from column name to cell text.
- `handleImgError` changes the DOM and is not modelled.
- The fallback-logo URLs are not modelled. `FALLBACK_IMAGE_BY_SITE` is a parameter: an ordered table of site names and logo addresses.
- Offers.DedupWrappers: takes the key function as a parameter. Every call passes `WrapperKey`, the offer's `offerKey`.
- Catalog.DisplayMap.Harvest: takes the filing as a parameter. Every call passes `Listing`, which shows `brandCanonicalize(getBase(raw))` and files it under its `toNorm`.
- Catalog.DisplayMap.HarvestList: takes the filing as a parameter, `Listing` at every call.
- Names.RegaliaBase: the example is stated on `Named("HDFC Regalia", "Visa Signature")`. `Names.RegaliaSpelling` proves that this is the literal `"HDFC Regalia (Visa Signature)"`.
- Names.RegaliaVariant: the example is stated on `Named("HDFC Regalia", "Visa Signature")`. `Names.RegaliaSpelling` proves that this is the literal `"HDFC Regalia (Visa Signature)"`.
- Similarity.ScoreCandidate: for a candidate that does not contain the query, the contract states only that the score lies in [0, 1]. The formula `0.7 · coverage + 0.3 · similarity` is the function's definition.
- Similarity.Lev: the edge cases `lev(a, "")` and `lev("", b)` are stated on the normalised text (`Similarity.EditDistanceEmpty`).
