# data-sanitization in Dafny

A Dafny model of the decision and transformation logic of the
data-sanitization pipeline. The pipeline prepares a text corpus, plants
contamination in it, flags suspicious rows and then sanitizes them. The
model covers these parts:

- **Sanitization engine.** `aggregate_flags` takes the union of the
  contamination and membership flags and gives each flagged index a reason.
  `sanitize_data` applies remove, anonymize or rewrite in place to a table
  of `(label, segments)` rows, logs the pre-action text of every flagged
  row, and returns the table renumbered `0 .. n-1`.
- **Decision rules.** `is_member` / `membership_inference`: similarity is
  `1 - distances[0]` and the comparison is inclusive. `check_reference_similarity`:
  a missing-model error, the maximum over the cosine scores, and an
  inclusive threshold.
- **Text perturbations.** `perturb_text` shuffles the words.
  `swap_words`, `add_char_noise` (with its insert, delete, substitute and
  swap edits) and `insert_irrelevant_text` are the contamination simulator.
- **Preprocessing.** `normalize_text` strips tags, replaces non-ASCII runs,
  collapses whitespace and can remove stopwords. `remove_duplicates` keeps
  the first row per key. `segment_text` and `segment_dataframe` cut texts
  into segments and explode them into rows. `cap_dataset_by_bytes` keeps
  rows within a cumulative UTF-8 byte budget, and the segment-limit
  truncation keeps the first rows. Both driver files share the byte cap;
  they differ in the default segment limit.

Python's `str.split()`, `" ".join` and `str.isspace()` are modelled once,
in module `Words`, and every module that splits and joins uses them.
Exceptions the code raises are `Err` values of a `Result`. The source's
keyword defaults are Dafny default parameter values with the same
constants: `action="remove"` for `sanitize_data`, `noise_level=0.05` for
`add_char_noise`, `threshold=0.85` for `is_member`, `threshold=0.9` and
`ref_model=None` for `check_reference_similarity`, `mode='sentence'` and
`fixed_token_length=100` for `segment_text`, `mode='sentence'` for
`segment_dataframe`, and `remove_stopwords=False` for `normalize_text`.

Randomness is a nondeterministic choice (`:|`) or an explicit parameter:
- the shuffle's swap partners;
- the two positions of `swap_words`;
- the coin, position, edit and letter of `add_char_noise`;
- the sentence and position of `insert_irrelevant_text`.

Library steps enter as function parameters: Unicode NFC, `str.lower`,
`unicodedata.combining`, the sentence splitter, the tokenizer, the segment
encoder and `cos_sim`.

## Model

| member | source | states |
|---|---|---|
| Sanitizer.FlaggedLabels | src/sanitization_engine/sanitizer.py:7-8 | Every row whose flag is true contributes its label, and every label in the set comes from such a row. |
| Sanitizer.ReasonFor | src/sanitization_engine/sanitizer.py:14-19 | The reason is empty exactly when neither source flagged the label. |
| Sanitizer.AggregateFlags | src/sanitization_engine/sanitizer.py:5-21 | The combined set is exactly the union of the labels whose contamination flag is true and those whose membership flag is true. The reason map has exactly those keys. Each reason names the sources that flagged the label, contamination first, joined by ", ". |
| Sanitizer.ReasonCases | src/sanitization_engine/sanitizer.py:13-19 | The three possible reasons are "contamination", "membership" and "contamination, membership". |
| Sanitizer.AggregateBound | src/sanitization_engine/sanitizer.py:10 | The union is never larger than the two flagged sets together. |
| Sanitizer.Lookup | src/sanitization_engine/sanitizer.py:27 | Reading a label's text fails exactly when the label is not in the table. |
| Sanitizer.LookupRow | src/sanitization_engine/sanitizer.py:27 | With unique labels, reading a row's label gives that row's text. |
| Sanitizer.Renumbered | src/sanitization_engine/sanitizer.py:46 | `reset_index(drop=True)` keeps the rows and their texts in order and labels them 0 .. n-1, so the labels are unique. |
| Sanitizer.FirstMissing | src/sanitization_engine/sanitizer.py:26-27 | Gives the position of the first flagged label the table lacks: all earlier labels are present, or every label is present when there is none. |
| Sanitizer.Without | src/sanitization_engine/sanitizer.py:31 | Dropping labels never adds rows. Which rows stay is stated by WithoutMembers, and how many by WithoutCount. |
| Sanitizer.Overwritten | src/sanitization_engine/sanitizer.py:35 | The anonymize write keeps the row count and every label, and leaves every row outside the written labels unchanged. |
| Sanitizer.Suffixed | src/sanitization_engine/sanitizer.py:39 | The rewrite write keeps the row count and every label, and leaves every row outside the written labels unchanged. What a written row then holds is stated by RewriteText. |
| Sanitizer.Sanitized | src/sanitization_engine/sanitizer.py:30-43 | Applying an action to a set of labels never adds rows, and only remove changes the row count. |
| Sanitizer.ExpectedLog | src/sanitization_engine/sanitizer.py:24-43 | The log has one entry per flagged label, in order, each with the label and the past-tense action (`PastTense`: "removed", "anonymized", "rewritten"); it is empty for an unrecognised action. The reason comes from `ReasonOf`, `flag_reason.get(idx, "unknown")`. |
| Sanitizer.WithoutWithout | src/sanitization_engine/sanitizer.py:31 | Dropping the labels of f and then those of g is the same as dropping the labels of f + g. |
| Sanitizer.WithoutAppend | src/sanitization_engine/sanitizer.py:31 | Dropping works row by row, so it keeps the order of the rows it keeps. |
| Sanitizer.WithoutMembers | src/sanitization_engine/sanitizer.py:30-32 | remove keeps exactly the rows whose label is not flagged. |
| Sanitizer.WithoutCount | src/sanitization_engine/sanitizer.py:30-32 | remove leaves n minus the number of flagged labels present in the table. |
| Sanitizer.SanitizedNothing | src/sanitization_engine/sanitizer.py:26-43 | Processing no label leaves the table as it was, under every action. |
| Sanitizer.UnflaggedUnchanged | src/sanitization_engine/sanitizer.py:30-43 | Under every action an unflagged row stays in the table with its text unchanged. Under anonymize, rewrite and an unknown action it also keeps its position. |
| Sanitizer.AnonymizeText | src/sanitization_engine/sanitizer.py:34-36 | anonymize keeps the row count and labels. Flagged rows get exactly "[REMOVED DUE TO PRIVACY RISK]" and other rows keep their text. |
| Sanitizer.AnonymizeIdempotent | src/sanitization_engine/sanitizer.py:34-36 | Applying anonymize a second time changes nothing. |
| Sanitizer.RewriteText | src/sanitization_engine/sanitizer.py:38-40 | rewrite keeps the row count and labels. Each flagged row reads its old text followed by " [REWRITTEN]", and every other row keeps its text. |
| Sanitizer.RewriteTwice | src/sanitization_engine/sanitizer.py:38-40 | Applying rewrite again appends " [REWRITTEN]" a second time, so rewrite is not idempotent. |
| Sanitizer.InvalidActionNoChange | src/sanitization_engine/sanitizer.py:42-43 | An unrecognised action changes no row. |
| Sanitizer.LookupUntouched | src/sanitization_engine/sanitizer.py:27-40 | After processing a set of labels, every other label still reads its original text. So each log entry holds the text from before the run. |
| Sanitizer.WithoutLookup | src/sanitization_engine/sanitizer.py:31 | Dropping other labels does not change what a label reads. |
| Sanitizer.SanitizedUnique | src/sanitization_engine/sanitizer.py:30-43 | Every action keeps the table's labels unique. |
| Sanitizer.SanitizedStep | src/sanitization_engine/sanitizer.py:30-40 | Applying the action to one more label moves the table from the state for the labels done so far to the state for those labels plus the new one. |
| Sanitizer.Table.Drop | src/sanitization_engine/sanitizer.py:31 | `df.drop(label, inplace=True)` removes that label's rows in place and keeps labels unique. |
| Sanitizer.Table.SetSegment | src/sanitization_engine/sanitizer.py:35 | `df.at[label, 'segments'] = text` overwrites that label's text in place. |
| Sanitizer.ApplyAction | src/sanitization_engine/sanitizer.py:30-43 | One iteration after the read: remove drops the label's row, anonymize writes the placeholder, rewrite writes the read text plus " [REWRITTEN]", and any other action leaves the table as it was. One log entry with the past-tense action is produced for a recognised action, and none otherwise. |
| Sanitizer.SanitizeData | src/sanitization_engine/sanitizer.py:23-46 | The run succeeds exactly when every flagged label is in the table. On success: the table is the input with the action applied to every flagged label; the result is that table renumbered; and the log has one entry per flagged label, in order, with the past-tense action, the reason (default "unknown") and the pre-run text, or no entries for an unknown action. The first missing label gives KeyError, with the earlier labels already processed. The action defaults to "remove". |
| Sanitizer.ExpectedLogStep | src/sanitization_engine/sanitizer.py:30-43 | Each visited label adds exactly one log entry for a recognised action and none for an unrecognised one. |
| Sanitizer.FirstMissingAt | src/sanitization_engine/sanitizer.py:26-27 | When the first k labels are present, the first missing label is at k if label k is missing, and there is none when k is the end. |
| MembershipInference.MembershipInference | src/MIA/membership_inference.py:22-35 | An empty distance row is IndexError. Otherwise the query is a member exactly when the nearest distance is at most 1 - 0.85; the similarity is `Similarity`, `1 - distance`. |
| MembershipInference.IsMember | src/MIA/membership_inference.py:9-20 | A score equal to the threshold is a member (the comparison is inclusive), and a score below it is not. The threshold defaults to 0.85. |
| MembershipInference.MemberMonotone | src/MIA/membership_inference.py:20 | A higher score never turns a member into a non-member. |
| MembershipInference.DefaultMembershipDistance | src/MIA/membership_inference.py:33-35 | With the default threshold 0.85, membership means a nearest distance of at most 0.15. |
| MembershipInference.ExactDuplicateIsMember | src/MIA/membership_inference.py:34-35 | A nearest distance of 0 has similarity 1 and is a member. |
| MembershipInference.NearestIsMostSimilar | src/MIA/membership_inference.py:33-35 | For ascending distances, the first neighbour is the most similar, and the decision is "some neighbour's similarity reaches the threshold". |
| ReferenceComparison.Max | src/contamination_detector/reference_comparison.py:41 | The maximum is at least every score and equals one of them. |
| ReferenceComparison.CheckReferenceSimilarity | src/contamination_detector/reference_comparison.py:24-43 | A missing reference model gives the ValueError before any scoring. An empty score list is an error. Otherwise max_sim is the maximum of the scores, and the flag holds exactly when some score reaches the threshold. |
| ReferenceComparison.FlagIffSomeScoreReaches | src/contamination_detector/reference_comparison.py:41-42 | max_sim reaches the threshold exactly when some score does; if every score is below it, there is no flag. |
| ReferenceComparison.MaxGrows | src/contamination_detector/reference_comparison.py:41-42 | Adding a reference score never lowers max_sim and never clears a flag. |
| ReferenceComparison.IdenticalReferenceFlags | src/contamination_detector/reference_comparison.py:41-42 | A reference with score 1 flags the segment for every threshold up to 1, the default 0.9 included. |
| Pacost.Shuffle | src/contamination_detector/pacost.py:22 | `random.shuffle` permutes the list in place: the multiset of the words is unchanged. |
| Pacost.SumLenPermutation | src/contamination_detector/pacost.py:22-23 | The total length of the words does not depend on their order. |
| Pacost.PermutationOfWords | src/contamination_detector/pacost.py:22 | A permutation of a list of words is a list of words. |
| Pacost.PerturbText | src/contamination_detector/pacost.py:9-23 | A text of at most one word comes back character for character. Otherwise: the output's words are a permutation of the input's, with the same count; the output is single-spaced; its length is the word lengths plus count - 1; and joining its split gives it back. |
| ContaminationSimulator.Insert | src/preprocessor/contamination_simulator.py:16 | insert puts the letter at position i; the word grows by one and the characters before and after i are kept. |
| ContaminationSimulator.Delete | src/preprocessor/contamination_simulator.py:17 | delete removes the character at i from a word longer than one, and leaves a one-character word unchanged. |
| ContaminationSimulator.Substitute | src/preprocessor/contamination_simulator.py:18 | substitute keeps the length and changes only position i. |
| ContaminationSimulator.SwapAdjacent | src/preprocessor/contamination_simulator.py:19 | swap exchanges characters i and i+1 and keeps the rest; at the last position the word is unchanged. |
| ContaminationSimulator.ApplyEdit | src/preprocessor/contamination_simulator.py:16-25 | Each of the four edits at position i changes the length by at most one and keeps the characters before i. |
| ContaminationSimulator.DeleteInsert | src/preprocessor/contamination_simulator.py:16-17 | Deleting at i what was just inserted at i gives the word back. |
| ContaminationSimulator.SwapAdjacentTwice | src/preprocessor/contamination_simulator.py:19 | Swapping the same pair twice gives the word back. |
| ContaminationSimulator.SubstituteSame | src/preprocessor/contamination_simulator.py:18 | Substituting a character by itself changes nothing. |
| ContaminationSimulator.EditKeepsWord | src/preprocessor/contamination_simulator.py:16-19 | Each edit with a letter keeps a word non-empty and free of whitespace. |
| ContaminationSimulator.EditLength | src/preprocessor/contamination_simulator.py:16-19 | The length after each edit is +1 for insert, -1 for delete (longer than one), and unchanged otherwise. |
| ContaminationSimulator.SwapWords | src/preprocessor/contamination_simulator.py:7-13 | Fewer than two words: the text comes back unchanged. Otherwise two distinct positions trade words, every other word stays in place, the multiset is kept, and the output is single-space joined. |
| ContaminationSimulator.ExchangeWords | src/preprocessor/contamination_simulator.py:12 | Exchanging two entries keeps a list of words with the same multiset. |
| ContaminationSimulator.AddCharNoise | src/preprocessor/contamination_simulator.py:15-26 | The word count is kept. Each word is either unchanged or one insert, delete, substitute or swap away from the original, with a letter a-z. With a noise level of 0 or less nothing changes. The output is single-space joined. |
| ContaminationSimulator.InsertIrrelevantText | src/preprocessor/contamination_simulator.py:28-32 | An empty sentence list is an error. Otherwise the words are `words[:pos] + sentence.split() + words[pos:]`, the count is the sum of both counts, and the output is single-space joined. |
| ContaminationSimulator.InsertKeepsOriginalOrder | src/preprocessor/contamination_simulator.py:32 | Cutting the inserted block out of the output's words gives the original words in their order. |
| Segmentation.Windows | src/Preprocessor/segmentation.py:23 | The chunks from a start position are no more than the tokens after it, since every chunk is non-empty. The exact count and sizes are WindowsShape. |
| Segmentation.WindowsShape | src/Preprocessor/segmentation.py:23 | There are ceil(len(tokens) / n) chunks; every chunk but the last has n tokens and the last has 1..n. |
| Segmentation.FlattenWindows | src/Preprocessor/segmentation.py:23 | The chunks concatenated in order are the token list. |
| Segmentation.WindowRoundTrip | src/Preprocessor/segmentation.py:23 | A chunk of whitespace-free tokens, joined with single spaces, splits back into the chunk. |
| Segmentation.WindowsAreSlices | src/Preprocessor/segmentation.py:23 | Every chunk is a contiguous slice of the tokens. |
| Segmentation.SegmentText | src/Preprocessor/segmentation.py:5-25 | sentence mode returns the sentence splitter's output, and every mode other than sentence and fixed returns `[text]`. In fixed mode, n = 0 is the `range` ValueError and n < 0 gives no segments. For n > 0 there are ceil(len(tokens) / n) segments, and none exactly when there are no tokens. |
| Segmentation.FixedSegmentsRoundTrip | src/Preprocessor/segmentation.py:21-23 | Segment k is `" ".join` of chunk k. With whitespace-free tokens, each segment splits back into its chunk, all segments but the last hold n tokens, and the chunks in order are the tokens. |
| Segmentation.ExplodeRow | src/Preprocessor/segmentation.py:41 | `explode` gives one row per segment in order, each with the source row; an empty list gives one row with a missing segment. |
| Segmentation.SegmentDataframe | src/Preprocessor/segmentation.py:28-41 | Every exploded row comes from an input row, and there are at least as many output rows as input rows. |
| Segmentation.SegmentDataframeAppend | src/Preprocessor/segmentation.py:40-41 | Exploding works row by row, so the output keeps the input's row order. |
| Segmentation.SegmentDataframeWhole | src/Preprocessor/segmentation.py:40-41 | With a mode that keeps texts whole, row k becomes exactly one row carrying row k's text. |
| Cleaning.StripTags | src/Preprocessor/cleaning.py:28 | Replacing each tag by one space never lengthens the text. Tag-freeness, idempotence and the no-tag case are the lemmas below. |
| Cleaning.TagEnd | src/Preprocessor/cleaning.py:28 | The end of a lazy `.*?>` match lies inside the text. |
| Cleaning.TagEndSpec | src/Preprocessor/cleaning.py:28 | The match ends at the first '>' and crosses no newline. When there is no match, every '>' comes after a newline. |
| Cleaning.TagFreeMeansNoTag | src/Preprocessor/cleaning.py:28 | In a tag-free text, a newline separates every '<' from any later '>'. |
| Cleaning.StripTagsTagFree | src/Preprocessor/cleaning.py:28 | After the tag substitution no match of `<.*?>` remains. |
| Cleaning.StripTagsOfTagFree | src/Preprocessor/cleaning.py:28 | The substitution leaves a tag-free text unchanged. |
| Cleaning.StripTagsIdempotent | src/Preprocessor/cleaning.py:28 | Removing tags twice is removing them once. |
| Cleaning.StripTagsNoOpen | src/Preprocessor/cleaning.py:28 | A text without '<' is unchanged. |
| Cleaning.DropCombining | src/Preprocessor/cleaning.py:33 | Every kept character has combining class 0 and comes from the input. |
| Cleaning.SubNonAscii | src/Preprocessor/cleaning.py:35 | After the `[^\x00-\x7F]+` substitution every character is ASCII. |
| Cleaning.SubNonAsciiOfAscii | src/Preprocessor/cleaning.py:35 | An ASCII text is unchanged. |
| Cleaning.SubNonAsciiChars | src/Preprocessor/cleaning.py:35 | Every output character is a space or an input character. |
| Cleaning.SubWhitespace | src/Preprocessor/cleaning.py:36 | `re.sub(r'\s+', ' ', s)` never lengthens the text, and the only whitespace it leaves is the plain space. |
| Cleaning.DropTrailingSpaces | src/Preprocessor/cleaning.py:36 | `rstrip` keeps a prefix of the text that does not end in whitespace. |
| Words.DropSpaces | src/Preprocessor/cleaning.py:36 | `lstrip` never lengthens the text, keeps a suffix of it, and leaves no leading whitespace. |
| Cleaning.Strip | src/Preprocessor/cleaning.py:36 | `strip` never lengthens the text, and its result neither starts nor ends with whitespace. |
| Cleaning.Collapse | src/Preprocessor/cleaning.py:36 | `re.sub(r'\s+', ' ', s).strip()` is `" ".join(s.split())` and is single-spaced. |
| Cleaning.CollapseShape | src/Preprocessor/cleaning.py:36 | Collapsing whitespace gives the joined words with at most one space on either side. |
| Cleaning.StripPadded | src/Preprocessor/cleaning.py:36 | `strip` removes exactly that padding from a single-spaced text. |
| Cleaning.CollapseIsJoinSplit | src/Preprocessor/cleaning.py:36 | The whitespace step equals `" ".join(s.split())`. |
| Cleaning.CollapseIdempotent | src/Preprocessor/cleaning.py:36 | Applying the whitespace step to its own output changes nothing. |
| Cleaning.RemoveStopwords | src/Preprocessor/cleaning.py:41 | The filtered list is never longer than the input. Which words stay is stated by RemoveStopwordsSpec. |
| Cleaning.RemoveStopwordsSpec | src/Preprocessor/cleaning.py:41 | The kept words are input words and none is a stopword, and every non-stopword is kept. |
| Cleaning.RemoveStopwordsAppend | src/Preprocessor/cleaning.py:41 | The filter works word by word, so kept words keep their relative order. |
| Cleaning.RemoveStopwordsNone | src/Preprocessor/cleaning.py:41 | A list without stopwords is kept whole. |
| Cleaning.NormalizeText | src/Preprocessor/cleaning.py:10-44 | The output is ASCII and single-spaced. Without stopword removal it is the collapsed prepared text. With it, its words are the prepared text's words minus the stopwords, and none is a stopword. The prepared text is `Prepared`: the tag, NFC, lowercase, combining-mark and non-ASCII steps of lines 28-35. |
| Cleaning.NormalizedChars | src/Preprocessor/cleaning.py:36-42 | A character property that holds for the space and for the prepared text holds for the output. So no step after the ASCII substitution adds a non-ASCII character. |
| Cleaning.NormalizeTextLowercase | src/Preprocessor/cleaning.py:32-44 | When lowercasing leaves no ASCII capital, the output has none. |
| Deduplication.RemoveDuplicates | src/Preprocessor/deduplication.py:15 | `drop_duplicates(subset=[key], keep='first')` never adds rows. Which rows stay is stated by RemoveDuplicatesSpec and KeepsFirstOccurrence. |
| Deduplication.RemoveDuplicatesSpec | src/Preprocessor/deduplication.py:4-15 | The output has no two rows with the same key. It keeps every key of the input, has one row per distinct key, and holds only input rows. |
| Deduplication.KeepsFirstOccurrence | src/Preprocessor/deduplication.py:15 | Every kept row is the first input row with its key, as with `keep='first'`. |
| Deduplication.LastRowOnly | src/Preprocessor/deduplication.py:15 | Another input row adds at most itself to the end of the output. |
| Deduplication.PrefixKeepsOrder | src/Preprocessor/deduplication.py:15 | The output for a prefix of the input is a prefix of the output, so the kept rows are in input order. |
| Deduplication.DistinctUnchanged | src/Preprocessor/deduplication.py:15 | An input without duplicate keys comes back unchanged. |
| Deduplication.RemoveDuplicatesIdempotent | src/Preprocessor/deduplication.py:15 | Removing duplicates twice is removing them once. |
| PreprocessorMain.Utf8Width | src/preprocessor/preprocessor_main.py:45 | A character takes 1 to 4 UTF-8 bytes, and 1 exactly when it is ASCII (RFC 3629, section 3). |
| PreprocessorMain.Utf8Length | src/preprocessor/preprocessor_main.py:45 | `len(s.encode('utf-8'))` is between len(s) and 4·len(s). |
| PreprocessorMain.Utf8LengthAppend | src/preprocessor/preprocessor_main.py:45-46 | Byte length adds up over concatenation. |
| PreprocessorMain.Utf8LengthAscii | src/preprocessor/preprocessor_main.py:45 | An ASCII text takes one byte per character. |
| PreprocessorMain.TotalBytesMonotone | src/preprocessor/preprocessor_main.py:46 | The cumulative size never decreases along the rows. |
| PreprocessorMain.KeptByCumSize | src/preprocessor/preprocessor_main.py:46-47 | The `cum_size <= max_bytes` filter never adds rows. That it keeps the maximal prefix within the budget is KeptIsMaximalPrefix. The cumulative size through a row is `TotalBytes` of the rows up to it, the `cum_size` column. |
| PreprocessorMain.KeptAllWithinBudget | src/preprocessor/preprocessor_main.py:47 | When the whole dataset fits the budget, no row is dropped. |
| PreprocessorMain.DefaultBudgetKeepsSmallCorpus | src/preprocessor/preprocessor_main.py:36 | With the default `--max-bytes` of 25 GiB, a corpus of at most that many bytes is kept whole. |
| PreprocessorMain.KeptIsMaximalPrefix | src/preprocessor/preprocessor_main.py:46-47 | The `cum_size <= max_bytes` filter keeps a prefix within the budget, and the prefix is maximal: either every row is kept or the next row would exceed the budget. |
| PreprocessorMain.CapDatasetByBytes | src/preprocessor/preprocessor_main.py:41-49 | The rows kept are those whose cumulative size is within the budget. They are an unchanged prefix of the input, within the budget, and maximal. A first row over the budget on its own leaves nothing. The function is the same in src/Preprocessor/preprocessor_main.py:38-46. |
| PreprocessorMain.FirstRowOverBudget | src/Preprocessor/preprocessor_main.py:44 | A first row over the budget on its own leaves nothing. |
| PreprocessorMain.ApplySegmentLimit | src/preprocessor/preprocessor_main.py:105-109 | The result is a prefix of the rows. A missing or zero limit keeps every row. A positive limit keeps min(limit, len) rows. A negative limit keeps all but the last -limit rows. |
| PreprocessorMain.SegmentLimitIdempotent | src/Preprocessor/preprocessor_main.py:72-76 | A non-negative limit applied twice keeps the same rows as applied once. |
| PreprocessorMain.NegativeLimitShrinks | src/preprocessor/preprocessor_main.py:106 | A negative limit is not idempotent: applying it again drops more rows. |
| PreprocessorMain.DefaultSegmentLimit | src/preprocessor/preprocessor_main.py:126 | With the default limit of 3414, the first min(3414, len) rows remain. |
| PreprocessorMain.PlainDefaultSegmentLimit | src/Preprocessor/preprocessor_main.py:91 | With the default of None, every row remains. |
| Words.Split | src/contamination_detector/pacost.py:19 | Every piece of `split()` is non-empty and free of whitespace. |
| Words.SplitJoin | src/contamination_detector/pacost.py:19-23 | Splitting a single-space join of words gives the words back. |
| Words.JoinSingleSpaced | src/contamination_detector/pacost.py:23 | A single-space join of words has no leading or trailing whitespace, and its only whitespace is single spaces between words. |
| Words.JoinWith | src/sanitization_engine/sanitizer.py:19 | `sep.join(parts)` of a non-empty list is as long as the parts plus one separator per gap. |
| Words.Join | src/contamination_detector/pacost.py:23 | A single-space join of a non-empty list is as long as the word lengths plus one per gap. |
| Words.SplitChars | src/Preprocessor/cleaning.py:40 | Every character of a split word is a character of the text. |
| Words.JoinSplitIdempotent | src/Preprocessor/cleaning.py:36 | Joining the split of a text is idempotent. |

## Left out

- `find_nearest_neighbors`: `membership_inference` calls it without importing it. The model takes the distance row the neighbour search would return. src/MIA/nearest_neighbor_search.py is not part of this model.
- Embeddings, `SentenceTransformer.encode` and `util.cos_sim`: these are floating-point numerics inside foreign models. The encoder and the scorer are function parameters, and scores are opaque reals.
- `load_reference_data`, `load_language_model` and `compute_perplexity`: model loading and torch numerics, with no decision logic.
- `contaminate_text`: it downloads a dataset and chains the three modelled edits.
- Unicode NFC, `str.lower`, `unicodedata.combining`, `sent_tokenize` and the tokenizer: library lookups, so they are function parameters. The NLTK stopword list is a set parameter.
- Cleaning.NormalizeTextLowercase: `lower` is a parameter, so "no ASCII capital after lowercasing" is its hypothesis rather than a proved fact about `str.lower`.
- The drivers' CLI, CSV and dataset I/O, progress bars, logging, and the random 20% contamination sample in `preprocess_dataset`: orchestration.
- The random number generator itself: every random draw is a nondeterministic choice or a parameter.
- ContaminationSimulator.AddCharNoise: the per-word coin is drawn from [0, 1) but its distribution is not modelled. The contract says what may happen to a word, not how likely it is.
- Column bookkeeping on data frames: the `text_size` and `cum_size` columns that `cap_dataset_by_bytes` adds to the caller's frame, and the `segments` column that `segment_dataframe` assigns on its input. Rows are opaque values, and only row selection and order are modelled.
- Iteration order of the flagged index set in `sanitize_data`: Python's set order is not modelled. The order is a parameter, a duplicate-free sequence.
- Lone surrogate code points, which make `str.encode('utf-8')` raise: Dafny characters are Unicode scalar values, so this error case cannot arise in the model.
- Sanitizer.SanitizeData: requires the table's index labels to be unique. Every table that reaches `sanitize_data` in the pipeline is read from CSV and carries a fresh RangeIndex. For a table with a repeated label, pandas behaves differently, and that behaviour is not modelled: `df.at` returns a Series, which would be logged as the original text; `drop` removes every row with that label; and the `.at` setter writes all of those rows. Such a table arises when `segment_dataframe`'s `explode` repeats an index label. A missing segment is not modelled either: the segment is a string, whereas pandas holds NaN for an empty CSV cell or an exploded empty segment list. On such a row remove and anonymize would log NaN as the original text, and rewrite would raise TypeError when it appends the marker to a float.
- MembershipInference.MembershipInference: distances, similarities and thresholds are exact reals. Float64 rounding in `1 - distances[0] >= threshold` is not modelled. At the boundary the two differ: for the double just above 0.15, `1 - d` rounds to 0.85 and Python reports a member, while the model does not. The same holds for MembershipInference.DefaultMembershipDistance and for the threshold comparison of ReferenceComparison.CheckReferenceSimilarity.
- Sanitizer.Table.Drop and Sanitizer.Table.SetSegment: both require the label to be present. On a missing label pandas' `drop` raises KeyError and the `.at` setter appends a row. `sanitize_data` never reaches either call with a missing label, because the read before them raises first.
- The edit position of `add_char_noise` ranges over 0 .. len - 1, the only values `random.randint(0, len(word) - 1)` draws. The edits are defined for those positions only.
