# icd-tokenize in Dafny

This project models the core of icd-tokenize. That program cuts the
free-text causes of death on Taiwanese death certificates into ICD dictionary
diagnoses, and checks the result against hand-coded targets. The certificate
has five categories: 甲, 乙, 丙 and 丁 form the causal chain, and 其他 holds
other conditions. Each category has four slots. The model proves what each
stage computes, and the properties the program relies on.

- **Pre-processing** (`preprocess.dfy`). The ordered rewrite pipeline of
  `ICDTokenizer._pre_process`:
  - the lookaround deletion of a lone 併;
  - the literal deletions and the `\s` removal;
  - the spelling rewrites;
  - the two whole-string overrides;
  - the traffic-accident relabelling.
- **Segmentation** (`trie.dfy`, `tokenizer.dfy`). The `pygtrie.CharTrie` is
  modelled as the set of its keys. `extract` is a scanning loop: where a key
  starts, it takes the longest one; where none starts, it moves one character
  on. In experimental mode it first recovers every key that is made of that
  character followed by a subsequence of the rest.
- **Refinement** (`refine.dfy`): `remove_subset`, `remove_synonyms` and
  `remove_duplicate`.
- **`extract_icd`** (`shift.dfy`, `tokenizer.dfy`):
  - splits 導致/引發 chains;
  - shifts the 甲..丁 grid in place on the `Data` object (`slots.dfy`);
  - fits every category of the new `Data` to exactly four slots.
- **Validators**:
  - `ICDValidator` (`validator.dfy`): chunks of four, sorted, compared
    pairwise up to case or a shared synonym line;
  - the older root-level validator (`legacy_validator.dfy`): every fourth
    entry, character by character.
- **Older root-level tokenizer** (`legacy_tokenizer.dfy`): greedy
  longest-prefix loop with a `COVID 19` exception.
- **Bookkeeping**:
  - `Record` (`record.dfy`): its verdicts, its `?` count, and its JSON,
    spreadsheet and error-report rows (padding its lists in place);
  - `Stats` (`stats.dfy`): totals, correct and dirty counts, pooling.
- **`ICD.generate`** (`icd.dfy`): merges the curated diagnoses with the
  usable cells of the data files, applies the exclusion list and sorts.
- **Shared text, order and sorting facts** (`text.dfy`, `sorting.dfy`):
  Python's `str.replace`, `re.sub` on a literal, `str.split`, `str.upper`,
  `str(n)`, `str.zfill`, `sorted`.

Where the written description of the system and the code differ, the model
follows the code:
- `extract("")` is `[""]`.
- The validator pairs sorted entries by position and checks no coverage.
- `remove_synonyms` emits the ICD code, not a diagnosis, because the synonym
  table maps diagnosis to code.
- Each category is cut to four results in `extract_icd`, after padding.

## Model

| member | source | states |
|---|---|---|
| Text.ReplaceAll | icd_tokenize/tokenizer.py:28-63 | one literal `re.sub` (with optional negative lookahead) or `str.replace` introduces no character outside the text and the replacement, leaves a text without the pattern's first character untouched, and a one-character deletion leaves none of that character |
| Text.Count | icd_tokenize/tokenizer.py:107 | `str.count` is positive only when the text contains the pattern |
| Text.Split | icd_tokenize/validator.py:7 | `str.split` on one character yields at least one part, no part holds the separator, and joining the parts with it gives the text back |
| Text.SplitJoin | icd_tokenize/validator.py:7 | the other round trip: splitting separator-free parts joined by the separator gives the parts back |
| Text.DeleteChar | icd_tokenize/validator.py:6 | `replace(c, "")` removes every `c`, adds no character, and changes nothing when `c` is absent |
| Text.Upper | icd_tokenize/validator.py:21 | upper-casing keeps the length and leaves no lower-case ASCII letter |
| Text.UpperIdempotent | icd_tokenize/validator.py:21 | upper-casing twice is upper-casing once |
| Text.Digits | icd_tokenize/record.py:49-51 | `str(n)` of a natural number is a non-empty digit string without a leading zero |
| Text.ValueDigits | icd_tokenize/record.py:49-51 | reading back the digits of `str(n)` gives `n` |
| Text.ValueLeadingZeros | icd_tokenize/record.py:50-51 | leading zeros do not change the number a digit string denotes |
| Text.ZFillNatural | icd_tokenize/record.py:50-51 | `str(n).zfill(w)` is exactly `w` wide unless `n` needs more digits, is all digits, and still denotes `n` |
| Text.Str | icd_tokenize/record.py:49-51 | `str(n)` of a non-negative number is digits whose value is `n`; of a negative one, `-` followed by digits whose value is `-n` |
| Text.ZFill | icd_tokenize/record.py:50-51 | `zfill(w)` is as wide as the larger of the text and `w`, leaves a wide-enough text alone, and keeps the value of a digit string |
| Text.ReplacePrefixBack | tokenizer.py:14 | a word without the replacement's first character that starts the rewritten text starts the original text |
| Sorting.LexLeTotal | icd_tokenize/validator.py:13-14 | any two strings are comparable under Python's string order |
| Sorting.LexLeAntisymmetric | icd_tokenize/validator.py:13-14 | two strings each at most the other are equal |
| Sorting.LexLeTransitive | icd_tokenize/validator.py:13-14 | the string order is transitive |
| Sorting.LexLe | icd_tokenize/validator.py:13-14 | a string is at most every string it begins, and a non-empty string at most another has a first character no greater than the other's |
| Sorting.Sort | icd_tokenize/validator.py:13-14 | `sorted` returns an ascending permutation of its input |
| Sorting.SortedUnique | icd_tokenize/validator.py:13-14 | two ascending lists with the same elements are equal, so the sorted result depends only on the multiset |
| Sorting.SortPermutation | icd_tokenize/validator.py:13-14 | sorting two permutations of one list gives the same list |
| Sorting.SortNoRepeats | icd_tokenize/icd.py:115-117 | sorting a list without repeats gives a list without repeats |
| Trie.NodePrefix | icd_tokenize/tokenizer.py:210 | every prefix of a trie node is a trie node |
| Trie.LongestPrefix | icd_tokenize/tokenizer.py:202 | `longest_prefix` gives a key that is a prefix of the text and is at least as long as every such key, or nothing exactly when no key is a prefix |
| Trie.Greedy | icd_tokenize/tokenizer.py:200-218 | the plain longest-prefix scan finds at most one term per character, each a dictionary key |
| Trie.GreedyCover | icd_tokenize/tokenizer.py:200-218 | the scan's terms lie in the text in order without overlap, each is the longest key at its position, and no key starts at any position outside them |
| Trie.CoverAfterSkip | icd_tokenize/tokenizer.py:203-215 | dropping a first character where no key starts shifts the cover of the rest by one |
| Trie.CoverAfterMatch | icd_tokenize/tokenizer.py:216-218 | taking the longest key at the start puts it in front of the cover of the rest |
| Slots.CauseIndex | icd_tokenize/tokenizer.py:176-177 | each of 甲..丁 has its place among the four causal categories |
| Slots.NamesDistinct | icd_tokenize/data.py:2-3 | distinct categories have distinct names and distinct codes |
| Slots.CategoriesComplete | icd_tokenize/data.py:2 | every category is among the five keys, and it is causal exactly when it is not 其他 |
| Slots.Pad4 | icd_tokenize/tokenizer.py:166-167 | padding gives at least four entries, keeps the list as its prefix, and adds only empty strings |
| Slots.FitFour | icd_tokenize/tokenizer.py:184-189 | pad then truncate gives exactly four slots, slot `i` being the `i`-th entry or empty |
| Slots.FitFourIdempotent | icd_tokenize/tokenizer.py:184-189 | padding and fitting are idempotent |
| Slots.Pad4Step | icd_tokenize/tokenizer.py:166-167 | one appended empty slot below four does not change the padded list |
| Slots.Data.constructor | icd_tokenize/data.py:6-12 | a new `Data` holds all five categories, each with an empty list |
| Preprocess.DropLoneBing | icd_tokenize/tokenizer.py:27 | deleting lone 併 adds no character, changes nothing without 併, and keeps a first character that is not 併 |
| Preprocess.LoneBingDropped | icd_tokenize/tokenizer.py:27 | every 併 left has 合 right before it or 發 right after it |
| Preprocess.StripSpaces | icd_tokenize/tokenizer.py:39 | removing `\s` leaves only non-space characters of the text, and changes nothing in a text without spaces |
| Preprocess.LabelsClean | icd_tokenize/tokenizer.py:70-117 | every traffic label starts with 車禍 and holds no whitespace, `_`, 及 or 並 |
| Preprocess.ApplyAppend | icd_tokenize/tokenizer.py:28-63 | applying two rule lists in sequence is applying their concatenation |
| Preprocess.ApplyInert | icd_tokenize/tokenizer.py:28-63 | rules whose patterns cannot start in the text leave it unchanged |
| Preprocess.DeletionsShrink | icd_tokenize/tokenizer.py:28-38 | the deletions never introduce a character |
| Preprocess.DeletionRemoves | icd_tokenize/tokenizer.py:36-38 | among the deletions, deleting 及, 並 or `_` removes it for good |
| Preprocess.ApplyKeepsClean | icd_tokenize/tokenizer.py:41-63 | the rewrites write no separator into a text free of separators |
| Preprocess.Override | icd_tokenize/tokenizer.py:65-68 | only 燒碳 and 洗腎 change, the result is neither of them, and a separator-free text stays separator-free |
| Preprocess.TrafficLabel | icd_tokenize/tokenizer.py:70-117 | a traffic label is chosen only when the text names 行人, 機車, 自行車 or 腳踏車 |
| Preprocess.Traffic | icd_tokenize/tokenizer.py:70-117 | the text is kept, or replaced whole by a separator-free label starting with 車禍; a text naming no pedestrian, motorcycle or bicycle is kept |
| Preprocess.Pedestrian | icd_tokenize/tokenizer.py:71-84 | the pedestrian clauses give a B label, and give one exactly when 機車, 摩托車, 小客車, 大客車, 貨車 or 火車 occurs |
| Preprocess.Rider | icd_tokenize/tokenizer.py:86-99 | the motorcycle-rider clauses give a D label, and give one exactly when 小客, 汽車, 貨車, 腳踏車, 曳引車 or 自行車 occurs |
| Preprocess.Motorcycle | icd_tokenize/tokenizer.py:101-108 | the motorcycle clauses give an A2 label or the truck label, and give one exactly when 小客, 汽車 or 貨車 occurs or 機車 occurs twice |
| Preprocess.Cyclist | icd_tokenize/tokenizer.py:110-117 | the bicycle clauses give a C label, and give one exactly when 小客, 汽車, 機車, 摩托車 or 貨車 occurs |
| Preprocess.TruckHoldsLorry | icd_tokenize/tokenizer.py:77-78 | a text naming 大貨車 names 貨車, so the 大貨車 test is reached only when 貨車 holds |
| Preprocess.PreProcess | icd_tokenize/tokenizer.py:26-119 | the pre-processed text holds no whitespace, `_`, 及 or 並: no rule after their removal writes one back |
| Preprocess.PedestrianMotorcycle | icd_tokenize/tokenizer.py:70-72 | a text naming 行人 and 機車 becomes exactly `車禍B1行人*機車` |
| Preprocess.OnlyApneaRewrite | icd_tokenize/tokenizer.py:26-119 | on a text made of the characters of 呼吸中止症候群, the whole pipeline is the one rewrite of line 54 |
| Preprocess.ApneaRewriteOnce | icd_tokenize/tokenizer.py:54 | the rewrite turns 呼吸中止症 into 呼吸中止症候群 |
| Preprocess.ApneaRewriteAgain | icd_tokenize/tokenizer.py:54 | the rewrite matches its own output again: 呼吸中止症候群 becomes 呼吸中止症候群候群 |
| Preprocess.PreProcessNotIdempotent | icd_tokenize/tokenizer.py:54 | 呼吸中止症 becomes 呼吸中止症候群, and a second pass makes it 呼吸中止症候群候群 |
| Refine.RemoveSubset | icd_tokenize/tokenizer.py:139-140 | `remove_subset` keeps, in order, exactly the terms whose characters no different term of the list all contains, with every copy of a kept term |
| Refine.UndominatedAll | icd_tokenize/tokenizer.py:139-140 | a list in which no term covers another is kept whole |
| Refine.RemoveSubsetIdempotent | icd_tokenize/tokenizer.py:139-140 | removing subsets twice removes nothing more |
| Refine.RemoveSubsetExample | icd_tokenize/tokenizer.py:121-127 | 癌 is dropped beside 肺癌, whose characters include all of its own |
| Refine.IsSubset | icd_tokenize/tokenizer.py:121-127 | a term is never a subset of itself, so equal terms never remove each other |
| Refine.ContainedIsSubset | icd_tokenize/tokenizer.py:121-127 | a term occurring inside a different term is a subset of it |
| Refine.Collapse | icd_tokenize/tokenizer.py:129-137 | the collapsed list holds exactly the unmapped terms and the codes of the mapped ones; its order is stated by CollapseKeepsOrder and CollapseWithinTranslation |
| Refine.CollapseCounts | icd_tokenize/tokenizer.py:129-137 | an unmapped term occurs as often as before, and a code at most once more than verbatim |
| Refine.RemoveSynonyms | icd_tokenize/tokenizer.py:129-137 | the appending loop computes the collapse |
| Refine.CollapseUnmapped | icd_tokenize/tokenizer.py:129-137 | without mapped terms nothing changes |
| Refine.CollapseCodeOnce | icd_tokenize/tokenizer.py:133-134 | a code is added once however many of its synonyms occur |
| Refine.CollapseKeepsOrder | icd_tokenize/tokenizer.py:129-137 | the unmapped terms stay in the collapsed list in their original order |
| Refine.CollapseWithinTranslation | icd_tokenize/tokenizer.py:129-137 | the collapsed list is a subsequence of the list with each mapped term replaced by its code: every entry keeps the place of the term it came from |
| Refine.Dedup | icd_tokenize/tokenizer.py:142-143 | deduplication keeps each term once, loses none, and keeps the order |
| Refine.DedupFirstOccurrences | icd_tokenize/tokenizer.py:142-143 | the kept terms are ordered by their first occurrence |
| Refine.DedupNoRepeats | icd_tokenize/tokenizer.py:142-143 | a list without repeats is its own deduplication |
| Shift.SplitFirst | icd_tokenize/tokenizer.py:154 | `split(sep, 1)` cuts the text at the first occurrence of the separator |
| Shift.Unchain | icd_tokenize/tokenizer.py:153-164 | a 導致 input gives effect and cause around its first 導致; otherwise a 引發 input around its first 引發; otherwise the input stays whole with no cause |
| Shift.Currents | icd_tokenize/tokenizer.py:152-164 | the current row holds each input's effect, in order |
| Shift.NoChains | icd_tokenize/tokenizer.py:152-164 | without chains the current row is the inputs and nothing is split off |
| Shift.RowsOf | icd_tokenize/tokenizer.py:149-173 | an all-empty category contributes no row, another one or two rows, each at least four long |
| Shift.Rows | icd_tokenize/tokenizer.py:147-173 | every collected row is at least four long |
| Shift.Padded | icd_tokenize/tokenizer.py:174-175 | the row list is kept and filled up to four with all-empty rows |
| Shift.Assigned | icd_tokenize/tokenizer.py:176-177 | the first causal categories take the first rows in order, and nothing else changes |
| Shift.Shifted | icd_tokenize/tokenizer.py:146-177 | after the shift 其他 is unchanged and each causal category has at least four inputs |
| Shift.AssignRows | icd_tokenize/tokenizer.py:176-177 | the four causal categories receive the first four rows in order; 其他 and nothing else changes |
| Shift.ShiftInputs | icd_tokenize/tokenizer.py:146-177 | the shift overwrites the `Data` object's lists in place with the shifted grid |
| Shift.CollectRows | icd_tokenize/tokenizer.py:147-173 | the outer loop collects the rows of the categories in order |
| Shift.PadRows | icd_tokenize/tokenizer.py:174-175 | the padding loop fills the row list up to four rows |
| Shift.CategoryRows | icd_tokenize/tokenizer.py:149-173 | one pass of the outer loop adds that category's rows |
| Shift.SplitChains | icd_tokenize/tokenizer.py:152-164 | the inner loop gathers the effects and the split-off causes in input order |
| Shift.PadRow | icd_tokenize/tokenizer.py:166-167 | the `while len < 4` loop pads a row |
| Shift.RowsOfCauses | icd_tokenize/tokenizer.py:148 | the rows are those of 甲, 乙, 丙, 丁, one after the other |
| Shift.PlainRow | icd_tokenize/tokenizer.py:149-168 | a filled category without chains contributes exactly its padded inputs |
| Shift.ShiftedCauses | icd_tokenize/tokenizer.py:174-177 | 甲..丁 receive the first four rows, padded with empty rows |
| Shift.ShiftOnlyPads | icd_tokenize/tokenizer.py:146-177 | with every causal category filled and no chains, the shift only pads |
| Shift.ShiftSkipsEmpty | icd_tokenize/tokenizer.py:146-177 | an empty 甲 is skipped: 乙, 丙, 丁 move up and 丁 is left empty |
| Shift.UnchainLeadsTo | icd_tokenize/tokenizer.py:153-157 | `A導致B`, with the first 導致 after A, is effect B and cause A |
| Shift.ChainRows | icd_tokenize/tokenizer.py:149-173 | a category holding one chain contributes the effect's row, then the cause's row |
| Shift.ShiftSplitsChain | icd_tokenize/tokenizer.py:146-177 | a chained 甲 `A導致B` becomes 甲 = B and 乙 = A, pushing the old 乙 down to 丙 |
| Tokenizer.Extensions | icd_tokenize/tokenizer.py:208-211 | `currents` holds exactly the candidates extended by the character that are trie nodes |
| Tokenizer.Possibles | icd_tokenize/tokenizer.py:204-212 | `possibles` is never empty and starts with the anchor character alone |
| Tokenizer.PossiblesMember | icd_tokenize/tokenizer.py:204-212 | `possibles` holds exactly the anchor followed by a subsequence of the rest, where that is the anchor alone or a trie node |
| Tokenizer.PossiblesStep | icd_tokenize/tokenizer.py:207-212 | one more character keeps the possibles and adds their extensions that are trie nodes |
| Tokenizer.CandidateStep | icd_tokenize/tokenizer.py:207-212 | the candidates for one more character are the old ones and their one-character extensions that are nodes |
| Tokenizer.KeysOf | icd_tokenize/tokenizer.py:213 | the key filter keeps exactly the possibles that are keys |
| Tokenizer.RecoveredKeys | icd_tokenize/tokenizer.py:204-215 | the recovery returns exactly the keys that start with the anchor and continue with a subsequence of the rest |
| Tokenizer.Recover | icd_tokenize/tokenizer.py:205-213 | the nested loops and the filter compute the recovered keys |
| Tokenizer.Segment | icd_tokenize/tokenizer.py:200-218 | every term the scan collects is a dictionary key |
| Tokenizer.SegmentGreedy | icd_tokenize/tokenizer.py:200-218 | without experimental mode the scan is the plain longest-prefix segmentation |
| Tokenizer.Refined | icd_tokenize/tokenizer.py:220-222 | refinement leaves no repeats, and only terms it was given or synonym codes |
| Tokenizer.ExtractSpec | icd_tokenize/tokenizer.py:193-224 | `extract` returns no repeats, and only keys, codes, or the `""` of the empty input |
| Tokenizer.ExtractEmpty | icd_tokenize/tokenizer.py:194-195 | the empty input gives `[""]` |
| Tokenizer.ExtractWholeKey | icd_tokenize/tokenizer.py:196-198 | a text that pre-processes to a key is returned whole, unrefined |
| Tokenizer.Extract | icd_tokenize/tokenizer.py:193-224 | the method computes `extract` as specified |
| Tokenizer.Scan | icd_tokenize/tokenizer.py:200-218 | the `while` loop computes the scan |
| Tokenizer.SegmentMatch | icd_tokenize/tokenizer.py:216-218 | where the longest key `p` starts, the scan records `p` and goes on after it |
| Tokenizer.SegmentSkip | icd_tokenize/tokenizer.py:203-215 | where no key starts, the scan adds the recovered keys and moves one character on |
| Tokenizer.RefineTerms | icd_tokenize/tokenizer.py:220-222 | the three passes compute the refinement |
| Tokenizer.ExtractGreedy | icd_tokenize/tokenizer.py:196-222 | without experimental mode, a text that is not a key yields the refined greedy cover |
| Tokenizer.CategoryResult | icd_tokenize/tokenizer.py:180-189 | each category's result has exactly four slots |
| Tokenizer.ExtractIcd | icd_tokenize/tokenizer.py:145-191 | `extract_icd` shifts the inputs in place and fills a new `Data` with each category's four extractions fitted to four slots |
| Tokenizer.FillData | icd_tokenize/tokenizer.py:179-189 | the loop over the categories fills each with its result |
| Tokenizer.ExtractInputs | icd_tokenize/tokenizer.py:181-182 | the extractions of a category's first four inputs, appended in order |
| Tokenizer.ExtractNext | icd_tokenize/tokenizer.py:181-182 | one pass of the loop extends the extractions by those of the next input |
| Tokenizer.ExtractUpToStep | icd_tokenize/tokenizer.py:181-182 | the extractions of one more input are the earlier ones followed by the new input's |
| Tokenizer.ExtractRow | icd_tokenize/tokenizer.py:181-189 | one category's four extractions are appended, padded and cut to four |
| Validator.SharedLineMeaning | icd_tokenize/validator.py:24-26 | the synonym search succeeds exactly when some line holds both entries |
| Validator.Compare | icd_tokenize/validator.py:20-27 | two entries agree exactly when they are equal up to case or both upper-cased entries sit on one synonym line |
| Validator.CompareReflexive | icd_tokenize/validator.py:20-23 | every entry agrees with itself |
| Validator.CompareSymmetric | icd_tokenize/validator.py:20-27 | agreement does not depend on the order of the entries |
| Validator.LowerEntryNeverMatches | icd_tokenize/validator.py:21-26 | a synonym entry with a lower-case letter is never equal to an upper-cased entry, so it never matches |
| Validator.Chunks | icd_tokenize/validator.py:10-11 | the list is cut into `ceil(n/4)` consecutive slices of four, the last possibly shorter |
| Validator.FlattenChunks | icd_tokenize/validator.py:10-11 | the chunks laid end to end give the list back |
| Validator.PairsMatchMeaning | icd_tokenize/validator.py:15-17 | two chunks pass exactly when every position up to the shorter one agrees |
| Validator.ChunksMatchMeaning | icd_tokenize/validator.py:12-18 | the lists pass exactly when every chunk pair up to the shorter list passes after sorting |
| Validator.PairsMatchSymmetric | icd_tokenize/validator.py:15-17 | positionwise agreement is symmetric |
| Validator.PairsMatchReflexive | icd_tokenize/validator.py:15-17 | a chunk agrees with itself |
| Validator.ChunksMatchSymmetric | icd_tokenize/validator.py:12-18 | chunkwise agreement is symmetric |
| Validator.ChunksMatchReflexive | icd_tokenize/validator.py:12-18 | chunk lists agree with themselves |
| Validator.ChunksMatchSorted | icd_tokenize/validator.py:12-14 | chunks that sort alike get the same verdict |
| Validator.IcdValidator.constructor | icd_tokenize/validator.py:2-7 | the synonym list holds one parsed line per input line, in order |
| Validator.ParseLine | icd_tokenize/validator.py:6-7 | a line loses its newlines and is split on commas: no part holds a comma or newline, and the parts rejoined give the line without newlines |
| Validator.MatchAllPositions | icd_tokenize/validator.py:12-18 | chunkwise agreement is agreement at every chunk and sorted position |
| Validator.IcdValidator.IcdValidate | icd_tokenize/validator.py:9-18 | validation passes exactly when, chunk by chunk, the sorted entries agree at every position both chunks have |
| Validator.EmptyPredictionPasses | icd_tokenize/validator.py:10-12 | an empty prediction passes against any target |
| Validator.ValidateReflexive | icd_tokenize/validator.py:9-18 | any list passes against itself |
| Validator.ValidateSymmetric | icd_tokenize/validator.py:9-18 | swapping prediction and target does not change the verdict |
| Validator.ValidatePermutedChunks | icd_tokenize/validator.py:13-14 | permuting entries inside chunks of the prediction does not change the verdict |
| LegacyValidator.EveryFourth | validator.py:9 | `xs[::4]` holds the entries at 0, 4, 8, ... |
| LegacyValidator.LegacyValid | validator.py:8-22 | validation passes exactly when, at every position `4k` both lists have, each character of the predicted entry agrees with some character of the target entry |
| LegacyValidator.FourthBound | validator.py:9 | `4k < n` exactly when `k` is below the length of `xs[::4]` |
| LegacyValidator.LegacyIcdValidator.constructor | validator.py:2-6 | each line is split on commas as it is, so its last part keeps the newline |
| LegacyValidator.LegacyIcdValidator.IcdValidate | validator.py:8-22 | the loops decide that every character of every fourth predicted entry agrees with some character of the paired target entry |
| LegacyValidator.LegacyIcdValidator.PairsCovered | validator.py:9-22 | the loop over the paired entries returns `False` at the first entry not covered and `True` when every pair is covered |
| LegacyValidator.LegacyIcdValidator.Covers | validator.py:10-21 | the loop over a predicted entry's characters decides its coverage |
| LegacyValidator.LegacyIcdValidator.Find | validator.py:14-19 | the inner search finds an agreeing target character exactly when one exists |
| LegacyValidator.EmptyEntryPasses | validator.py:10-12 | an empty predicted entry always passes |
| LegacyValidator.EmptyTargetFails | validator.py:13-21 | a non-empty predicted entry fails against an empty target entry |
| LegacyValidator.OnlyEveryFourthMatters | validator.py:9 | entries off positions 0, 4, 8, ... never change the verdict |
| LegacyValidator.SameUpperCovered | validator.py:24-27 | an entry is covered by one that differs from it only in case |
| LegacyValidator.CovidUpper | validator.py:25 | upper-casing `covid-19` gives `COVID-19` |
| LegacyValidator.Demo | validator.py:33-39 | the demo call on `covid-19` against `COVID-19` passes |
| LegacyValidator.Uniform | validator.py:8-22 | lists whose every fourth entries are one covered pair pass |
| LegacyTokenizer.Preprocess | tokenizer.py:11-15 | pre-processing leaves no 併 and adds only the characters of `COVID 19` |
| LegacyTokenizer.PreprocessDeletes | tokenizer.py:11-15 | without `COVID19`, pre-processing only deletes 併 and spaces |
| LegacyTokenizer.PreprocessCovid | tokenizer.py:14 | `COVID19` becomes `COVID 19` (the all-inputs statement is PreprocessSpellsCovid) |
| LegacyTokenizer.CovidRewritten | tokenizer.py:14 | no `COVID19` remains after the rewrite |
| LegacyTokenizer.CovidSpacesSpelled | tokenizer.py:13-14 | in a text without spaces, every space the rewrite leaves lies inside an inserted `COVID 19` |
| LegacyTokenizer.CovidRoundTrip | tokenizer.py:14 | in a text without spaces, rewriting `COVID 19` back to `COVID19` undoes the rewrite |
| LegacyTokenizer.PreprocessSpellsCovid | tokenizer.py:11-15 | for every input: no `COVID19` is left, every space lies inside an inserted `COVID 19`, and spelling those back gives the input with 併 and spaces deleted |
| LegacyTokenizer.Segment | tokenizer.py:21-29 | the loop records at most one term per character |
| LegacyTokenizer.SegmentMatch | tokenizer.py:25-29 | where the longest key starts, the scan records it, or `COVID 19` when `COVID-19` is what remains, and goes on after it |
| LegacyTokenizer.SegmentSkip | tokenizer.py:23-24 | where no key starts, the scan drops one character |
| LegacyTokenizer.SegmentIsGreedy | tokenizer.py:21-29 | the scan is the longest-prefix segmentation except for terms replaced by `COVID 19` |
| LegacyTokenizer.SegmentWithoutCovid | tokenizer.py:21-29 | without `COVID-19` in the text the scan is exactly the longest-prefix segmentation |
| LegacyTokenizer.ExtractIcd | tokenizer.py:17-30 | `extract_icd` is the scan of the pre-processed text |
| LegacyTokenizer.Scan | tokenizer.py:21-29 | the `while` loop computes the scan |
| LegacyTokenizer.EmptyYieldsNothing | tokenizer.py:17-30 | a text that pre-processes to nothing yields no terms |
| Records.SlotNumbersAreStr | icd_tokenize/record.py:58 | the slot numbers are `str(i + 1)` |
| Records.JsonKeysDistinct | icd_tokenize/record.py:54-58 | distinct slots get distinct JSON keys, none an identifier key |
| Records.JsonNamesDistinct | icd_tokenize/record.py:48-58 | the JSON headers name the columns one to one |
| Records.ExcelKeyEnd | icd_tokenize/record.py:75-77 | a spreadsheet key ends in a digit exactly when its tag is not empty |
| Records.ExcelKeysDistinct | icd_tokenize/record.py:75-77 | distinct slots get distinct spreadsheet keys |
| Records.DirtyIn | icd_tokenize/record.py:37-44 | the count is the number of positions of the list whose category has an input with `?`: at most the list's length, zero exactly when none has, full exactly when all have |
| Records.DirtyInCategories | icd_tokenize/record.py:37-44 | over a list naming each category once, the count is the number of dirty categories the list names |
| Records.DirtyPositionsSnoc | icd_tokenize/record.py:41-43 | one more category adds one to the dirty positions exactly when it has a `?` input |
| Records.DirtyInStep | icd_tokenize/record.py:41-43 | one pass of the counting loop adds one exactly when the category has a `?` input |
| Records.NamedSnoc | icd_tokenize/record.py:41-43 | naming one more category adds it to the dirty categories named exactly when it is dirty |
| Records.DirtyNone | icd_tokenize/record.py:37-44 | the `?` count is zero exactly when no input list holds an entry with `?` |
| Records.CategoriesInOrder | icd_tokenize/record.py:84 | the category list runs 甲, 乙, 丙, 丁, 其他 |
| Records.SubseqInOrder | icd_tokenize/record.py:84-86 | a subsequence of categories in that order is in that order too |
| Records.NonEmpty | icd_tokenize/record.py:87-89 | `filter(None, xs)` keeps, in order, exactly the non-empty strings, each as many times as it occurs in `xs` |
| Records.Record.constructor | icd_tokenize/record.py:10-18 | a record has its identifiers and empty dictionaries |
| Records.Record.Dirty | icd_tokenize/record.py:37-44 | the counting loop computes `DirtyCount`: the number of categories with a `?` input |
| Records.Record.IsCorrect | icd_tokenize/record.py:27-30 | a record is correct exactly when no verdict is false |
| Records.Record.IsIdentical | icd_tokenize/record.py:32-35 | a record is identical exactly when no identity flag is false |
| Records.Record.DirtyCount | icd_tokenize/record.py:37-44 | the count is the number of categories that have an input with `?`: at most five, zero exactly when no input list holds a `?` |
| Records.Record.Failed | icd_tokenize/record.py:84-86 | the failed categories of a list are exactly its categories with a false verdict, in the list's order |
| Records.Record.ErrorsFrom | icd_tokenize/record.py:84-90 | one row per failed category of the list and no other: the `i`-th row is the error row of the `i`-th failed category |
| Records.Record.GetErrors | icd_tokenize/record.py:81-91 | exactly one row per failed category, in the order 甲, 乙, 丙, 丁, 其他; each row is that category's inputs, target and results with empty slots removed |
| Records.Record.ForJson | icd_tokenize/record.py:46-60 | pads the results in place and emits the year, the zero-filled month and serial, and `CA1..CE4` as the first four results, empty where missing; nothing else changes |
| Records.Record.ForExcel | icd_tokenize/record.py:62-79 | pads inputs and results in place, returns serial and number, and keys `before` and `after` by category and tag with the first four inputs and results |
| Records.PadAndFill | icd_tokenize/record.py:54-58 | every category's list is padded and its four slot columns are filled from it |
| Records.PadList | icd_tokenize/record.py:55-56 | the list comprehension append pads to four |
| Records.FillRow | icd_tokenize/record.py:57-58 | the `for i in range(4)` loop fills one category's four columns |
| Records.FilledColumns | icd_tokenize/record.py:54-58 | the filled columns are exactly the slot columns, holding the first four entries or empty |
| Records.JsonFields | icd_tokenize/record.py:46-60 | pads every result list to four, and the JSON row holds year, month and serial as `str`/`zfill` text and the four slots of each category, and no other column |
| Records.IdentifiersBesideSlots | icd_tokenize/record.py:48-58 | writing the three identifier columns keeps the slot columns |
| Records.NoVerdictsCorrect | icd_tokenize/record.py:27-30 | a record without verdicts is correct |
| Records.CorrectIffNoErrors | icd_tokenize/record.py:27-30 | a record with a verdict per category is correct exactly when it reports no error |
| Records.ErrorRows | icd_tokenize/record.py:84-90 | a category is reported exactly when it failed, with its lists stripped of empty slots |
| Statistics.Total | icd_tokenize/stats.py:16-19 | the total is the number of records |
| Statistics.CorrectCount | icd_tokenize/stats.py:21-24 | the count is at most the number of records, full exactly when all are correct, zero exactly when none is |
| Statistics.Correct | icd_tokenize/stats.py:21-24 | `correct` is at most `total` |
| Statistics.DirtySum | icd_tokenize/stats.py:41-44 | the sum is at most five per record, and zero exactly when no record is dirty; with DirtySumSingle and DirtyAppend it is the sum of the records' counts |
| Statistics.Dirty | icd_tokenize/stats.py:41-44 | `dirty` is at most five times `total`; its value is the sum of the records' counts by DirtySumSingle and DirtyAppend |
| Statistics.DirtySumSingle | icd_tokenize/stats.py:41-44 | a single record contributes exactly its own `dirty` count |
| Statistics.AllRecords | icd_tokenize/stats.py:58-61 | the pooled list is as long as the totals added up, holds every record of every part, and holds no record from outside the parts |
| Statistics.AllRecordsSingle | icd_tokenize/stats.py:61 | pooling one part gives its records |
| Statistics.AllRecordsAppend | icd_tokenize/stats.py:61 | pooling two runs of parts is pooling the first followed by pooling the second |
| Statistics.Sum | icd_tokenize/stats.py:58-61 | the pooled stats carry the given name, `"total"` by default, and the summed totals |
| Statistics.CorrectAppend | icd_tokenize/stats.py:21-24 | correct counts add up over concatenation |
| Statistics.DirtyAppend | icd_tokenize/stats.py:41-44 | dirty counts add up over concatenation |
| Statistics.SumCorrect | icd_tokenize/stats.py:58-61 | the pooled correct count is the sum of the parts' correct counts |
| Statistics.SumDirty | icd_tokenize/stats.py:58-61 | the pooled dirty count is the sum of the parts' dirty counts |
| Icd.SkippedFileIgnored | icd_tokenize/icd.py:77-79 | a file named with `(00000)` contributes no cell wherever it stands |
| Icd.Put | icd_tokenize/icd.py:91-95 | one cell switches on its key exactly when it is usable and new, records it as not verified, and changes no flag already there |
| Icd.PutAll | icd_tokenize/icd.py:88-95 | a run of cells adds exactly its usable keys and changes no flag already there |
| Icd.PutAllFacts | icd_tokenize/icd.py:88-95 | scanning cells adds exactly the usable new keys, switched on and recorded as not verified, and changes no existing flag |
| Icd.PutAllAppend | icd_tokenize/icd.py:88-95 | scanning two runs of cells is scanning one after the other |
| Icd.Seed | icd_tokenize/icd.py:72-74 | every curated diagnosis starts as a kept key, and nothing is recorded as not verified |
| Icd.ScanRow | icd_tokenize/icd.py:89-95 | the category and slot loops scan one row's cells in order |
| Icd.ScanSlots | icd_tokenize/icd.py:90-95 | the loop over one category's four slots scans those four cells of the row |
| Icd.PutAllStep | icd_tokenize/icd.py:91-95 | scanning one more cell of a row is one more `Put` |
| Icd.ScanRows | icd_tokenize/icd.py:88-95 | the row loop scans a file's cells row after row |
| Icd.ScanFiles | icd_tokenize/icd.py:77-95 | the file loop scans the cells of the files not skipped |
| Icd.Missing | icd_tokenize/icd.py:98-103 | the warnings name exactly the excluded keys not in the dictionary |
| Icd.Exclude | icd_tokenize/icd.py:98-103 | excluded keys that are present are switched off, absent ones only warned about, and no key is added |
| Icd.Kept | icd_tokenize/icd.py:115 | the result holds exactly the keys switched on, without repeats |
| Icd.SortMembers | icd_tokenize/icd.py:106-117 | sorting keeps exactly the members |
| Icd.Generate | icd_tokenize/icd.py:25-119 | raises on a missing workbook or data directory; otherwise the final list is sorted, without repeats, and holds exactly the curated and usable scanned keys not excluded; the not-verified list is sorted, without repeats, and holds exactly the usable scanned keys not curated; and a warning is given for each excluded key in neither |

## Left out

- File reading is modelled as parameters:
  - the diagnosis workbook of `ICD.__init__` (icd_tokenize/icd.py:13-23);
  - the synonym table of `Synonym` (icd_tokenize/synonym.py:7-18);
  - the validators' synonym files.
  The constructors receive a diagnosis set, a diagnosis-to-code map and the file's lines.
- `ICD.generate` models only its merge, exclude and sort logic:
  - the existence of the workbook and of the data directory are booleans;
  - the data directory is a sequence of files in `os.listdir` order;
  - each file's rows are given as the twenty diagnosis cells in column order (the source selects exactly twenty columns at line 83);
  - the NFKC normalisation of the curated diagnoses and of every data cell (icd_tokenize/icd.py:46, 85) is not modelled: `Generate` receives them already normalised;
  - the output directory creation, the `original-icd.csv` and `synonym.csv` outputs (lines 35-70), CSV writing and the console output are not modelled.
- `pygtrie.CharTrie` is the set of its keys. The empty string must not be a key: with it, `longest_prefix` returns an empty prefix and the loop in `extract` never ends.
- `str.upper` is modelled on ASCII letters only. Unicode case mapping and NFKC normalisation (done in main.py, and in `ICD.generate` as noted above) are not modelled.
- `\s` is modelled by `IsSpace`, the characters Python's `str.isspace` accepts; every regular expression of `_pre_process` is a literal pattern with an optional one-character lookbehind or lookahead, modelled as such.
- The experimental recovery is modelled by what it finds. The exponential size of the `possibles` list is not modelled.
- Tokenizer.ExtractIcd: requires 其他 to hold at least four inputs, because the source indexes its first four without a check.
- Records.Record.ForJson: requires every category to be in `results`, because the source looks each one up without a check; likewise `ForExcel` for `inputs` and `results`, and `GetErrors` for `corrects` and the lists of failed categories.
- Record and `Data` dictionaries are keyed by category; JSON and spreadsheet rows are keyed by column, whose header strings (`JsonName`, `ExcelKey`) are proved one to one. Dictionary insertion order is not modelled.
- Records.Record.ForExcel: pads every `inputs` list and then every `results` list, where the source interleaves the two per category. The outcome is the same, because no list is read before it is padded.
- Aliasing between the lists of the record and the returned dictionaries is not modelled: the lists are values.
- Stats: `exactness` reads `is_exact`, which `Record` does not define; `correct_rate` and `exact_rate` are floating-point ratios that divide by zero on empty stats; `simple`, `dataframe` and `table` render output. None is modelled.
- main.py, dataset.py, icd_tokenize/dataset.py, collect.py, analyze.py, validate.py, icd.py and icd/icd.py are not part of this model: they are I/O scripts, or (validate.py) code that returns `True` in both branches and calls a method that does not exist.
- Text.Count: states only that a positive count means an occurrence; the exact count is used only through the `== 2` test of line 107.
- Statistics.Correct: its own contract bounds it by `total`; what it counts is stated by `CorrectCount`.
