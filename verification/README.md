# github-chat retrieval core, modelled in Dafny

This project models the retrieval and sanitising core of github-chat. github-chat is a chat
assistant that answers questions about an organisation's GitHub repositories. It looks them
up in a vector store. The model covers four parts.

- **`ChromaDBPipeline`** (scripts/chroma_utils.py). This covers `filter_results` and the
  order and row bookkeeping of `respond_with_db_results`. `filter_results` keeps the answers
  within a distance threshold, merges them by repository id, sorts them by distance and keeps
  the first `n_results`. It also counts what it removed. `execute_pipeline` calls the steps
  in order.
- **Prompt sanitising** (scripts/string_utils.py). `remove_invisible_unicode` strips Unicode
  tag characters and reports the message they hide. `escape_tags` neutralises angle
  brackets. `sanitise_string` composes the two. The matching step of `get_vintage_from_str`
  finds the timestamp in a collection name.
- **`check_moderation`** (scripts/moderations.py). This is its decision once the moderation
  service has answered.
- **`_init_stream`** (scripts/chat_utils.py). It resets the chat stream.

Modules:

| file | module | what it holds |
|---|---|---|
| wrappers.dfy | `Wrappers` | `Option`; `Result` carrying the Python exception kind raised |
| messages.dfy | `Messages` | a chat message, `{"role": ..., "content": ...}` |
| text.dfy | `Text` | Python's `str.replace` and `sep.join` with their placement lemmas |
| string_utils.dfy | `StringUtils` | tag stripping, bracket escaping, vintage matching |
| query_result.dfy | `QueryResult` | a query answer as batches of four parallel lists; the threshold filter |
| threshold.dfy | `Threshold` | the reverse, parallel, by-index deletion of `filter_results` |
| dedup.dfy | `Dedup` | the insertion-ordered dict the results are merged into |
| stable_sort.dfy | `StableSort` | Python's stable `sorted` with a real-valued key, generic in the element type |
| ranking.dfy | `Ranking` | the sort by distance, and the `islice` truncation |
| chroma_pipeline.dfy | `ChromaPipeline` | the pipeline state and its three operations |
| moderations.dfy | `Moderations` | the moderation decision |
| chat_utils.dfy | `ChatUtils` | the stream reset |

## Notable behaviour of the code

The model follows the code in each of these points. Where a docstring says otherwise, that is noted.

- **Threshold first.** `filter_results` applies the distance threshold to each raw batch
  *before* merging by id. So an id with one occurrence above the threshold and one below
  survives with the value below.
- **Last value wins.** A repeated id keeps the value of its *last* occurrence, not the one
  with the smallest distance. It keeps the position of its *first* occurrence: a Python dict
  keeps insertion order and an update does not move the key. `Dedup.MergeKeepsLastValue` and
  `Dedup.MergeKeepsFirstPosition` state both.
- **Truncation.** `n_results` of `None` or `0` means no truncation. It is not an error, since
  `if n_results:` is false for both. A negative `n_results` makes `islice` raise
  `ValueError`.
- **One counter.** `total_removed` is reset at the start of `filter_results`. It then counts
  the threshold deletions plus the entries dropped by truncation. Merged duplicates are not
  counted.
- **No malformed-batch error.** The code does not check that the four lists of a batch have
  the same length. The model requires it (`QueryResult.WellFormed`).
- **Moderation result.** `check_moderation`'s docstring says it returns `None` when the
  prompt is not flagged. The code returns the prompt itself, and the model follows the code.
- **Blank runs are halved, not collapsed.** `.replace("  ", " ")` at the end of
  `respond_with_db_results` makes one left-to-right pass without overlap. So a run of k
  blanks (spaces or newlines) becomes ceil(k / 2) spaces, and three blanks leave two spaces.
  `ChromaPipeline.Flatten1LineBlankRun` and `ChromaPipeline.ThreeBlanksLeaveTwo` state it.

## Model

| member | source | states |
|---|---|---|
| QueryResult.WithinConcat | scripts/chroma_utils.py:243-259 | filtering and counting by threshold distribute over concatenation, so batches can be filtered one at a time |
| QueryResult.WithinPartition | scripts/chroma_utils.py:243-259 | every record is either kept (and then lies at or below the threshold) or counted as removed, never both |
| QueryResult.WithinMembers | scripts/chroma_utils.py:243-259 | a record survives the threshold exactly when it was present and its distance is at or below the threshold |
| Threshold.RemovalIndices | scripts/chroma_utils.py:246-248 | `rem_inds` lists, in increasing order, exactly the positions whose distance is above the threshold |
| Threshold.DeleteAt | scripts/chroma_utils.py:253-258 | deleting index k from all four lists keeps them aligned and removes exactly the k-th record |
| Threshold.ThresholdBatch | scripts/chroma_utils.py:243-259 | deleting by index in reverse leaves exactly the records at or below the threshold, in order, still aligned; the count equals the records above it |
| Threshold.ThresholdPass | scripts/chroma_utils.py:241-259 | after the pass every batch is filtered, the visiting order of the survivors is the threshold filter of the original order, and `total_removed` is the number above the threshold |
| Dedup.Put | scripts/chroma_utils.py:267-271 | `d[id] = v` makes `id` look up `v`, leaves every other key alone, keeps the key order if `id` was present and appends it otherwise |
| Dedup.LookupIffKey | scripts/chroma_utils.py:262-271 | an id looks something up exactly when it is a key of the dict |
| Dedup.Merge | scripts/chroma_utils.py:262-271 | the merged dict has unique keys and no more entries than records |
| Dedup.MergeKeepsLastValue | scripts/chroma_utils.py:262-271 | looking an id up in the merged dict gives the value of the last record with that id, and nothing for an absent id |
| Dedup.MergeKeys | scripts/chroma_utils.py:262-271 | the merged keys are exactly the ids of the records |
| Dedup.MergeKeepsFirstPosition | scripts/chroma_utils.py:262-271 | of any two merged keys, the earlier one is the id whose first occurrence among the records comes first |
| StableSort.Sort | scripts/chroma_utils.py:273-279 | `sorted(..., key=key)` has the input's length and elements, and is ascending by key |
| StableSort.InsertStable | scripts/chroma_utils.py:273-279 | inserting an item puts it in front of every item with the same key, leaving their order alone |
| StableSort.SortIsStable | scripts/chroma_utils.py:273-279 | for every key value, the items with that key are in the same relative order before and after sorting |
| StableSort.SortTiesKeepOrder | scripts/chroma_utils.py:273-279 | two sorted items with equal keys stood in the same order, at earlier and later positions, in the input |
| Ranking.SortByDistance | scripts/chroma_utils.py:273-279 | `sorted(..., key=distance)` is a permutation of its input, ascending by distance |
| Ranking.SortMembers | scripts/chroma_utils.py:273-279 | sorting neither adds nor loses an entry |
| Ranking.SortKeepsDistinct | scripts/chroma_utils.py:273-279 | sorting keeps dict keys unique |
| Ranking.SortTiesKeepOrder | scripts/chroma_utils.py:273-279 | two sorted entries of equal distance are found in the same order, at positions it returns, in the dict before sorting |
| Ranking.Truncate | scripts/chroma_utils.py:280-291 | `None` or `0` keeps everything; a negative count raises `ValueError`; otherwise the result is the first `min(n, len)` entries, and no kept entry is farther than a dropped one |
| ChromaPipeline.Init | scripts/chroma_utils.py:80-97 | definition, stated field by field rather than proved: a new pipeline has removed nothing, holds no results and has an empty export table |
| ChromaPipeline.FilterResults | scripts/chroma_utils.py:213-291 | on no results raises `AttributeError`, on an already ranked dict `TypeError`, on a negative count `ValueError`; otherwise the output is a prefix of the sorted merged survivors of the requested length, `total_removed` restarts and equals threshold deletions plus truncated entries, and no other attribute changes |
| ChromaPipeline.RankedEntry | scripts/chroma_utils.py:243-279 | every ranked entry is a surviving id, at or below the threshold, carrying the value of its last occurrence |
| ChromaPipeline.RankedTie | scripts/chroma_utils.py:261-279 | ranked entries at equal distance are in the order in which their ids first occurred |
| ChromaPipeline.RankedOutputFacts | scripts/chroma_utils.py:213-291 | the output of `filter_results` has unique ids, ascending distances, entries that are survivors with their last value, and ties in order of first occurrence |
| ChromaPipeline.NewlinesKeepVisible | scripts/chroma_utils.py:369 | `.replace("\n", " ")` changes no character other than a space or a newline |
| ChromaPipeline.SpacesKeepVisible | scripts/chroma_utils.py:369 | `.replace("  ", " ")` only deletes spaces |
| ChromaPipeline.Flatten1LineShrinks | scripts/chroma_utils.py:369 | the two replaces shorten the prompt if and only if it holds two blanks (spaces or newlines) side by side |
| ChromaPipeline.Flatten1LineBlankRun | scripts/chroma_utils.py:369 | a text made only of blanks flattens to ceil(k / 2) spaces, because the second replace pairs blanks off in one pass without overlap |
| ChromaPipeline.ThreeBlanksLeaveTwo | scripts/chroma_utils.py:369 | three spaces, or a space, a newline and a space, flatten to two spaces, not one |
| Text.ReplaceSpaceRun | scripts/chroma_utils.py:369 | one `"  "` to `" "` pass over k spaces leaves ceil(k / 2) spaces |
| ChromaPipeline.Flatten1Line | scripts/chroma_utils.py:369 | the prompt sent to the model has no newline, is no longer than before and keeps every character other than a space or newline in order; it is strictly shorter exactly when two blanks (spaces or newlines) stand side by side; a one-line text without a double space is unchanged |
| ChromaPipeline.MakeRow | scripts/chroma_utils.py:340-352 | definition, stated field by field rather than proved: a `meta_dict` carries the joined keywords, the metadata's org, privacy, archive flag and language, the rendered update date, the extracted name, url, description and summary, and the result's distance |
| ChromaPipeline.RespondWithDbResults | scripts/chroma_utils.py:293-369 | anything but a ranked dict raises `AttributeError`; otherwise one export row per result is appended in result order with the result's distance, earlier rows are kept, `chat_ui_results` is the rendered rows joined with "***", and a "user" message is returned whose content is the meta prompt of the sanitised prompt and `chat_ui_results`, flattened to one line |
| ChromaPipeline.QueryAndFilter | scripts/chroma_utils.py:408-415 | the steps before the response: fails with `TypeError` when the collection name has no timestamp and with `ValueError` on a negative count, and succeeds otherwise; keeps the export table; the ranked results are the first `min(n, len)` sorted merged survivors of the answer, all of them for a count of 0 |
| ChromaPipeline.ExecutePipeline | scripts/chroma_utils.py:389-419 | records the keywords and the rendered data vintage; fails with `TypeError` when the collection name has no timestamp and with `ValueError` on a negative count, and succeeds otherwise; the ranked results are the first `min(n, len)` sorted merged survivors of the answer, all of them for a count of 0; `total_removed` counts only this run; the export table gains, after the old rows, the `meta_dict` of each ranked result in order, `chat_ui_results` is the "***" join of those rows rendered in order, and the message sent is the flattened meta prompt over that join |
| Text.Replace | scripts/string_utils.py:51 | `str.replace` (also used at string_utils.py:63 and chroma_utils.py:369) leaves a text without an occurrence of the pattern unchanged, and never lengthens it when the replacement is no longer than the pattern |
| Text.ReplaceShrinks | scripts/string_utils.py:51 | a replacement shorter than its pattern strictly shortens any text that holds the pattern |
| Text.ReplaceCharPointwise | scripts/string_utils.py:63 | replacing one character by another keeps the length and changes exactly the positions holding that character |
| Text.ReplaceCharRemovesAll | scripts/chroma_utils.py:369 | replacing every occurrence of a character by text without it leaves no occurrence |
| Text.Join | scripts/chroma_utils.py:363 | `sep.join` (also used at chroma_utils.py:341 and moderations.py:31) is exactly as long as its parts and the separators between them |
| Text.JoinPlacesParts | scripts/chroma_utils.py:363 | each part of a `sep.join` appears intact at its offset, followed by the separator unless it is the last |
| StringUtils.RemoveInvisibleUnicode | scripts/string_utils.py:33-47 | the result has no tag character and is the input without its tag characters; with none the input is returned and nothing is warned; otherwise the warning reads " Hidden message was removed: " followed by the decoded hidden message |
| StringUtils.StripTagsPartition | scripts/string_utils.py:35-42 | stripping keeps exactly the characters that are not tags and the hits are exactly the tags: the lengths add up, and with no hit the text is unchanged |
| StringUtils.NoTagsNoHits | scripts/string_utils.py:36-37 | the `if hits:` test is false exactly when the text has no tag character |
| StringUtils.HiddenMessageRoundTrip | scripts/string_utils.py:38-39 | decoding a tag character by `- 0xE0000 + 0x20` is undone by the inverse shift, character by character |
| StringUtils.RemoveInvisibleUnicodeIdempotent | scripts/string_utils.py:33-47 | a cleaned text is returned unchanged and without warning |
| StringUtils.EscapeTagsMatchesReference | scripts/string_utils.py:50-51 | the two chained `str.replace` calls equal escaping each bracket independently |
| StringUtils.EscapeTags | scripts/string_utils.py:50-51 | the result is one character longer per bracket, every bracket is preceded by "/", and unescaping gives back the input |
| StringUtils.UnescapeEscaped | scripts/string_utils.py:50-51 | unescaping inverts escaping |
| StringUtils.SanitiseString | scripts/string_utils.py:54-57 | the result has no tag character and only escaped brackets, and unescapes to the input without its tag characters; the "Hidden message was removed" warning of `remove_invisible_unicode` is passed on: none exactly when the input has no tag character, otherwise the prefix followed by the decoded hidden message |
| StringUtils.FindVintage | scripts/string_utils.py:61-62 | the search finds the leftmost position matching the timestamp pattern, or reports that none matches |
| StringUtils.VintageFromStr | scripts/string_utils.py:60-63 | a match exists exactly when the result is a value, otherwise `match[0]` raises `TypeError`; the value is the leftmost 26-character match with every "_" turned into ":" |
| Moderations.Infringements | scripts/moderations.py:27-30 | no more names than categories |
| Moderations.InfringementsMembers | scripts/moderations.py:27-30 | a name is listed exactly when a category of that name is set |
| Moderations.InfringementsConcat | scripts/moderations.py:28-30 | the names keep the dict's key order |
| Moderations.InfringementsDistinct | scripts/moderations.py:28-30 | with unique keys, no name is listed twice |
| Moderations.CheckModeration | scripts/moderations.py:24-33 | an unflagged prompt is returned unchanged; a flagged one becomes the set categories joined by " & ", empty when none is set |
| Moderations.FlaggedListsNames | scripts/moderations.py:26-31 | in a flagged answer each violated category's name appears intact at its place in key order, followed by " & " unless it is the last |
| ChatUtils.SystemPrompt | scripts/chat_utils.py:5 | definition, stated rather than proved: the default first message is a system message carrying the app's system prompt |
| ChatUtils.Welcome | scripts/chat_utils.py:6 | definition, stated rather than proved: the default second message is the assistant's greeting |
| ChatUtils.InitStream | scripts/chat_utils.py:9-18 | the reset stream holds exactly `sys` and then `wlcm` |
| ChatUtils.InitStreamForgetsHistory | scripts/chat_utils.py:15-18 | resetting twice is resetting once, and the result does not depend on the earlier conversation |
| ChatUtils.DefaultStreamOpening | scripts/chat_utils.py:5-18 | with the defaults the stream opens with a system message and then the greeting |

## Left out

- Network and SDK calls are not modelled: the Nomic login and embedding, the Chroma client and collection lookup, and the OpenAI moderation call. Their answers are parameters: the query answer `answer`, the collection name, and the moderation `Verdict`.
- `query_collection` is not modelled. It stores the store's answer, which `ExecutePipeline` receives as `answer`. The `n_results` passed to the store itself is not modelled.
- The query result is a dict of four lists of lists. The model transposes it into one `Batch` of four lists per query. It assumes every batch is aligned; the code neither checks this nor reports it.
- The regex field extraction in `respond_with_db_results` (name, url, description, AI summary) is an opaque parameter `extract`. It is not modelled as regular expressions.
- Date formatting is not modelled. `fromtimestamp`, `strftime`, the "days ago" suffix and `datetime.now()` are a parameter `formatDate` of `MakeRow`. The `fromisoformat`/`strftime` step after the vintage match is a parameter `formatVintage` of `ExecutePipeline`; `StringUtils.VintageFromStr` itself stops at the matched text with ":" in place of "_", which is what `formatVintage` receives. The `ValueError` that `fromisoformat` raises is not modelled. It is raised for an impossible date. It may also be raised when the unescaped `.` in the pattern matched a character other than `.`, depending on the Python version: 3.11 and later accept `,` there, and read `+`, `-` or `Z` followed by the six digits as a UTC offset.
- Rendering a result is an opaque parameter `render`. As written, `format_results(db_result=meta_dict)` omits the required `model_summary` argument and would raise `TypeError`.
- The meta prompt template is an opaque parameter `metaPrompt`. `META_PROMPT` and `APP_SYS_PROMPT` are imported from scripts/constants.py, which does not define them. So `ChatUtils.SystemPrompt` takes the system prompt text as a parameter.
- The export table is a sequence of rows, not a pandas DataFrame. The `reset_index` is not modelled because it only renumbers the rows.
- On an error path the model returns only the error. A state partly changed before the exception (for example `total_removed` already reset) is not modelled.
- `remove_invisible_unicode`'s `warnings.warn` is modelled as the `warning` field of `Cleaned`, which `sanitise_string` passes on. Its `debug` print is not modelled.
- `warnings.simplefilter("always", UserWarning)` at the start of `remove_invisible_unicode` changes the process-wide warning filter. This global side effect is not modelled.
- Distances are `real`. A NaN or infinite distance, and how it behaves under the `>` threshold test and in `sorted`, is not modelled.
- StringUtils.VintageFromStr: the digit class is ASCII "0"-"9". Python's `\d` also matches other Unicode decimal digits.
- `check_moderation` is asynchronous; awaiting is not modelled. Only the first moderation result is read, as in the code.
- The app's own inline copy of the filtering in app.py is not part of this model. The same goes for the ingestion scripts and the UI components.
- `_init_stream` mutates a list in place. The model returns the new contents instead.
