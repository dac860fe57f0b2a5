# Google AI Studio text-to-speech batcher, modelled in Dafny

`7.py` drives Google AI Studio in a browser to turn a long text into speech. It
cuts the text into chunks of at most `max_length` characters, produces one WAV file
per chunk in a download directory, names each file from a template such as
`audio_chunk_{index:04d}.wav`, skips chunks whose file already exists (so that an
interrupted run can resume), and finally concatenates the chunk files in order
into one output file.

This project models the deterministic core of that program and proves what it
promises:

- `text.dfy` (module `Text`): Python's whitespace model (`str.isspace`,
  `str.split()`, `" ".join`, `strip`) and the sentence split
  `re.split(r"(?<=[.!?])\s+", ...)`. The lemmas say that whitespace normalisation is
  idempotent, keeps every non-space character in order, and that splitting and
  re-joining a normal text gives it back.
- `chunker.dfy` (module `Chunker`): `split_sentence` and `smart_split` as
  imperative methods. Each is proved equal to a left-fold specification function.
  That function's lemmas state chunk shape, emptiness and the round trip.
- `chunker_findings.dfy` (module `ChunkerFindings`): two worked examples show where
  `smart_split` as written reorders text or leaves an over-long word whole. A
  corrected packer is proved to keep every chunk within `max_length` and to keep
  the text in order.
- `naming.dfy` (module `Naming`): `str.format` with `{index:0Nd}`, `pathlib`'s
  `name`, `stem` and `suffix` for POSIX paths, `build_target_name`, and
  `rename_downloaded_file` with its `_1`, `_2`, … clash loop.
- `ledger.dfy` (module `Ledger`): the chunk plan, the run loop with its browser
  restart and retry counter, and the final collection in
  `automate_google_ai_simple`.
- `merge.dfy` (module `Merge`): `merge_audio_files`. It sorts in place by index,
  merges only when there is one file per chunk, and concatenates in index order.
- `freshness.dfy` (module `Freshness`): how the interaction decides that an audio
  element on the page is new rather than the one already there. It compares the
  `src` length and a 100-character base64 fingerprint.
- `wrappers.dfy` (module `Wrappers`): `Option`.

The download directory is a set of file names. The browser is an oracle: for each
chunk it says whether the browser starts, which file the interaction produces and
whether that file decodes. Decoding audio is a function from a file name to its
samples, or to failure.

The chunks are turned into audio files that are concatenated into one file in chunk
order, so the chunks must come out in text order. `smart_split` does not keep that
order: it emits an oversized sentence's pieces before the text buffered ahead of it,
so that text is spoken after the sentence that follows it. The model follows the code
and shows this (see Findings).

A chunk that fails is not tried again within a run. Both handlers end in `continue`:
the one for a session error (7.py:1045-1064) and the generic one (7.py:1066-1080).
The loop goes on with the next chunk, and the failed chunk's file stays missing
(`Ledger.SessionErrorSkipsChunk`). The merge then refuses to run (7.py:1109). A later
run plans the missing chunks again (7.py:968-974, `Ledger.Replan`).

## Model

| member | source | states |
|---|---|---|
| Text.WordsAreWords | 7.py:47 | every element of `str.split()` is a non-empty word without whitespace |
| Text.NormaliseIsNormal | 7.py:43-44 | normalised text has no leading, trailing or doubled whitespace, and only plain spaces |
| Text.StripIsNormal | 7.py:44 | stripping text whose only whitespace is single plain spaces leaves no space at either end |
| Text.CollapseSpacing | 7.py:44 | after `re.sub(r"\s+", " ", ...)` the only whitespace is single plain spaces |
| Text.NormaliseIdempotent | 7.py:43-44 | normalising twice is the same as normalising once |
| Text.NormaliseKeepsText | 7.py:43-44 | normalisation keeps exactly the non-whitespace characters, in their order |
| Text.NormaliseEmpty | 7.py:43-44 | the normalised text is empty if and only if the input is all whitespace |
| Text.JoinWordsOfNormal | 7.py:47 | joining the words of a normal text with single spaces gives the text back |
| Text.SentencesOfNormal | 7.py:66 | the lookbehind split of a normal text (pattern at 7.py:41) yields non-empty normal sentences that re-join to the text |
| Chunker.SplitSentence | 7.py:46-62 | the generator yields exactly the greedy word packing of the sentence, with over-long lone words hard-split |
| Chunker.SplitStepAt | 7.py:50-60 | one word's effect on the yielded pieces and the buffer is one step of that packing |
| Chunker.HardSplit | 7.py:58-59 | appends the consecutive `max_length` slices of the word to the output |
| Chunker.SmartSplit | 7.py:64-85 | returns exactly the sentence packing of the normalised text, including the oversized-sentence branch |
| Chunker.PackAll | 7.py:67-85 | the loop over the sentences and the final flush give exactly the sentence packing |
| Chunker.SmartStep | 7.py:70-82 | one sentence's effect on the chunk list and the buffer, as the packing function defines it |
| Chunker.SlicesOfWord | 7.py:58-59 | the slices concatenate back to the word; each is non-empty, at most `max_length` and a word; all but the last are exactly `max_length` |
| Chunker.SentencePiecesAreChunks | 7.py:46-62 | every piece of a normal sentence is non-empty and normal, and fits `max_length` unless it is a single word |
| Chunker.SentencePiecesNonEmpty | 7.py:46-62 | a non-empty sentence yields at least one piece |
| Chunker.SmartChunksAreChunks | 7.py:64-85 | every chunk is non-empty and normal, and fits `max_length` unless it is a single word; the chunks built from the sentence buffer always fit, so a chunk longer than `max_length` is one of the pieces `split_sentence` cut from a sentence longer than `max_length` |
| Chunker.OverlongPiecesFrom | 7.py:73-75 | every piece recorded for an over-long sentence was cut by `split_sentence` from a sentence of the text longer than `max_length` |
| Chunker.SmartChunksEmpty | 7.py:64-66 | there are no chunks if and only if the text is all whitespace |
| Chunker.SentencePiecesRoundTrip | 7.py:46-62 | when no word exceeds `max_length`, the pieces joined by spaces give the sentence back |
| Chunker.SmartSplitRoundTrip | 7.py:64-85 | when no sentence exceeds `max_length`, the chunks joined by spaces give the normalised text back |
| ChunkerFindings.ExampleSentences | 7.py:66 | the three-sentence sample text splits into its three sentences |
| ChunkerFindings.ExampleChunks | 7.py:64-85 | the chunks of the sample text at `max_length` 15: the third sentence's two words come before the second sentence |
| ChunkerFindings.SmartChunksOfThree | 7.py:67-85 | for three sentences where the first fits, the second does not fit beside it and the third is oversized, the chunks are the first, the third's pieces, then the second |
| ChunkerFindings.SmartSplitReorders | 7.py:73-75 | as written, the sample text's chunks re-join to something other than its normalised text |
| ChunkerFindings.SplitSentenceOverlong | 7.py:54-60 | as written, a six-letter word behind a buffered word is yielded whole at `max_length` 3 |
| ChunkerFindings.FixedAgreesOnShortSentences | 7.py:73-75 | when no sentence exceeds `max_length`, the corrected packing equals the code's |
| ChunkerFindings.SentencePiecesFixedFit | 7.py:46-62 | corrected: every piece of a normal sentence is non-empty, normal and at most `max_length` |
| ChunkerFindings.SmartChunksFixedFit | 7.py:64-85 | corrected: every chunk is non-empty, normal and at most `max_length` |
| ChunkerFindings.SentencePiecesFixedRoundTrip | 7.py:46-62 | corrected: when no word exceeds `max_length`, the pieces re-join to the sentence |
| ChunkerFindings.SmartChunksFixedRoundTrip | 7.py:64-85 | corrected: when no word exceeds `max_length`, the chunks re-join to the normalised text, in order |
| Naming.Decimal | 7.py:969 | `str(index)` is a non-empty digit string that starts with `0` only for zero |
| Naming.DecimalValue | 7.py:969 | reading the decimal numeral back gives the index |
| Naming.DecimalLong | 7.py:1129 | an index of at least 10^w has more than w digits |
| Naming.DecimalShort | 7.py:1129 | an index below 10^w has at most w digits |
| Naming.PaddedValue | 7.py:1129 | the zero-padded field `{index:0Nd}` still denotes the index |
| Naming.PaddedWidth | 7.py:1129 | an index below 10^N pads to exactly N characters |
| Naming.PaddedInjective | 7.py:1129 | different indices give different padded fields |
| Naming.FormatInjective | 7.py:969 | different chunk indices format to different file names |
| Naming.MainTemplateName | 7.py:1129 | an index below 10000 names `audio_chunk_` plus four digits plus `.wav`, and the four digits are the index zero-padded, reading back as the index |
| Naming.NameOfName | 7.py:260-265 | `Path(p).name` is empty or a valid single name, and a valid name is its own `name` |
| Naming.LastDot | 7.py:263 | the position of the last dot, as `rfind` finds it |
| Naming.StemSuffix | 7.py:271-272 | `stem + suffix` is the name, and the suffix is empty or a dot followed by a non-empty dot-free tail |
| Naming.SuffixAfter | 7.py:262-265 | appending an extension to a non-empty name makes that extension its suffix |
| Naming.TargetName | 7.py:260-265 | the target has no `/`; it keeps the template's stem; it carries the template's suffix, or the download's when the template has none; it is empty only when both are empty |
| Naming.PlainTargetIsFormat | 7.py:260-265 | for a template with a suffix and no directory part, the target is the formatted name and is a valid name |
| Naming.ProgramTemplatesArePlain | 7.py:954 | the default template and the one in `main` (7.py:1129) are such templates |
| Naming.CandidateWithSuffix | 7.py:270-272 | the k-th clash candidate is `stem_k` followed by the suffix |
| Naming.CandidateAfterTrailingDot | 7.py:271-272 | for `a.` the stem keeps the dot: the second candidate is `a._2._1` |
| Naming.TakenBelowBound | 7.py:270-272 | a candidate longer than every existing name is free, which bounds the clash loop |
| Naming.TakenBounded | 7.py:270-272 | only counters below a bound fixed by the directory give taken names |
| Naming.FirstFreeFrom | 7.py:270-272 | counting up from k reaches a counter that is not taken |
| Naming.SkippedAreTaken | 7.py:270-272 | every counter skipped on the way is taken |
| Naming.FirstFreeMeaning | 7.py:267-274 | the counter the clash loop settles on gives a free name, every earlier counter a taken one, and the target is kept when it is free |
| Naming.RenameOutcomeMeaning | 7.py:267-274 | invalid target name and missing source are errors; otherwise the new name is the first free candidate: it was free, every candidate before it was taken, the target is used when free; the source leaves, only the new name arrives, the count of files is unchanged |
| Naming.RenameDownloadedFile | 7.py:267-274 | the loop's result is that outcome |
| Ledger.PendingSound | 7.py:968-974 | every planned job is a chunk in 1..N whose formatted file is missing, carrying that chunk's text |
| Ledger.PendingAscending | 7.py:968-974 | the plan is strictly ascending in index, so no chunk is planned twice |
| Ledger.PendingComplete | 7.py:968-974 | every chunk whose file is missing is planned |
| Ledger.Plan | 7.py:968-974 | the loop builds that plan |
| Ledger.CollectSound | 7.py:1092-1099 | every result is a chunk in 1..N whose file exists, recorded at its formatted name |
| Ledger.CollectAscending | 7.py:1092-1099 | the results are strictly ascending in index |
| Ledger.CollectComplete | 7.py:1092-1099 | every chunk whose file exists has a result |
| Ledger.PlanAndCollectPartition | 7.py:968-984 | planned and collected chunks add up to N, and the early return happens exactly when every chunk is collected |
| Ledger.CollectResults | 7.py:1092-1099 | the loop builds that collection |
| Ledger.Replan | 7.py:968-974 | after files are added, planning again gives the old plan minus the newly present chunks, in the same order |
| Ledger.StillMissingAll | 7.py:968-974 | planning again on an unchanged directory keeps the whole plan |
| Ledger.AttemptChunk | 7.py:994-1080 | one iteration: browser start, counter reset, interaction, decode check, rename and the two error handlers, as the step function defines it |
| Ledger.InteractWithPage | 7.py:1005-1043 | the interaction once a browser runs: a failure or an audio file that does not decode quits the browser and keeps the counter, a completed rename resets it, as the interaction function defines it |
| Ledger.RunPending | 7.py:993-1080 | the loop over the plan, with its `break`, is the run of that step over the plan |
| Ledger.AutomateGoogleAiSimple | 7.py:951-1101 | the final directory is the run's, and the result is the collection over it |
| Ledger.StepSessionError | 7.py:1045-1050 | only a session error at browser start that reaches the handler raises the counter, and the loop stops exactly when the counter reaches three |
| Ledger.StepCounter | 7.py:994-1080 | a browser that starts and a completed chunk reset the counter; other failures quit the browser and keep it |
| Ledger.StepKeepsFiles | 7.py:1024-1036 | a step never removes a file that was there before it |
| Ledger.RunKeepsFiles | 7.py:993-1080 | the run never removes a file that was there before it |
| Ledger.RunTakesEachJobOnce | 7.py:993-1080 | the run takes the jobs up in order, each at most once; it stops early only at the retry limit, otherwise it takes all of them |
| Ledger.CompletedChunkIsCanonical | 7.py:1032-1043 | for a template that ends in a suffix such as `.wav` and has no `/`, and a download not already under the formatted name, a completed chunk's file lands exactly under the formatted name that plan and collection look for, and nothing else changes |
| Ledger.DownloadNamedLikeTarget | 7.py:1032-1033 | a download that already bears the formatted name clashes with itself and is renamed away, so the chunk stays missing |
| Ledger.SessionErrorSkipsChunk | 7.py:1045-1064 | a session error does not retry its chunk; the loop goes on with the next one |
| Ledger.SessionErrorsStopTheRun | 7.py:1045-1050 | when every start ends in a session error that reaches the handler, the run takes up three chunks (or all, if fewer), changes no file and stops |
| Ledger.NoSessionErrorRunsAll | 7.py:993-1080 | when no session error reaches the handler, the counter never rises, the run never stops early and it takes up every job |
| Ledger.CompletedFirstChunkCollected | 7.py:1092-1099 | the first planned chunk, once completed, is among the final results whatever happens after it |
| Merge.InsertLeft | 7.py:1107 | one insertion step of the in-place sort: the prefix becomes sorted and the array stays a permutation |
| Merge.SortByIndex | 7.py:1107 | sorted by index, a permutation of the input, and unchanged when already sorted |
| Merge.MergeAudioFiles | 7.py:1103-1123 | sorts in place; refuses exactly when the count differs from the chunk total; otherwise fails if a file does not decode, or writes the concatenation in index order |
| Merge.Concatenate | 7.py:1113-1117 | the decode-and-append loop gives exactly the concatenation in the order given, or failure |
| Merge.CombinedFailsOnward | 7.py:1113-1123 | one file that does not decode makes the whole merge fail |
| Merge.CombinedAppend | 7.py:1114-1117 | merging a sequence is merging a prefix, then the rest, in that order |
| Merge.CombinedLength | 7.py:1114-1117 | the merged audio is as long as all chunks' audio together |
| Merge.CollectAll | 7.py:1092-1099 | when every chunk's file exists, the results are chunks 1..N in order |
| Merge.GateMeansComplete | 7.py:1109-1111 | the merge gate passes exactly when nothing is left to plan; the collected results are then chunks 1..N, already sorted |
| Freshness.FindFingerprint | 7.py:301 | `re.search` finds the leftmost `base64,` followed by 100 non-newline characters, or reports that there is none |
| Freshness.FingerprintShape | 7.py:301-303 | a fingerprint is 100 newline-free characters that follow a `base64,` in the `src` |
| Freshness.SavedFrom | 7.py:292-306 | the saved `src` is the first non-empty one, every one before it being empty (empty when there is none); its fingerprint is saved exactly when it is a `data:audio` URL, and is then `Fingerprint` of it |
| Freshness.SaveOldSource | 7.py:287-308 | the loop saves exactly that |
| Freshness.NoSavedFingerprintMeansFresh | 7.py:359-368 | without a saved fingerprint no `data:audio` candidate is stale |
| Freshness.SameAudioAgain | 7.py:359-371 | the old audio seen again is stale, unless it is a `data:audio` URL without a fingerprint |
| Freshness.SameFingerprintIsStale | 7.py:360-368 | a different `data:audio` clip of the same length and fingerprint is taken for the old one |
| Freshness.FirstNew | 7.py:350-378 | the first non-empty, non-stale `src`; everything before it is empty or stale |
| Freshness.FindNewAudio | 7.py:350-378 | one scan of the audio elements returns that first new one |

## Left out

- Browser automation (Selenium, Chrome start-up and profiles, page clicks, `driver.refresh`, `kill_chrome_processes`) is an oracle per chunk index: whether the browser starts, the file the interaction produces, and whether it decodes.
- `wait_for_new_file` and its polling are reduced to that oracle's file name. A name already in the directory or ending in `.crdownload` counts as a timeout.
- `time.sleep`, `delay_between_downloads` and the 600-attempt polling for a new audio element are left out; `Freshness.FindNewAudio` models one scan.
- Logging and printing are left out.
- Decoding with pydub is a function from a file name to samples. `export` writing the output file is represented by the returned output name.
- `main`, reading `input.txt` and `download_path.mkdir` are left out.
- The dead code between 7.py:581 and 7.py:950 is not part of this model.
- The directory is a flat set of file names. Subdirectories, and the paths stored in `DownloadResult`, are names relative to it.
- Only POSIX paths are modelled; the Windows flavour of `pathlib` is not.
- Templates are modelled as `prefix{index:0Nd}rest`. Other format specifications and literal braces are not.
- The run's own `results` list (7.py:1036) is discarded by the code in favour of the final collection, so it is not modelled.
- Exceptions thrown by `get_attribute` while scanning audio elements are modelled as an empty `src`.
- A `SessionNotCreatedException` raised after the browser already runs is treated like any other failure.
- Ledger.AttemptChunk: the oracle's `SessionNotCreated` start outcome is a session error that leaves `build_driver`: after a failed start deleted the profile (7.py:242-245), the recursive call re-creates it in `setup_chrome_profile`, whose fallback start (7.py:193) and the call at 7.py:205 are not guarded. When the profile cannot be deleted, `build_driver` recurses until Python's recursion limit and the generic handler (7.py:1066) takes the error; the model counts that case as `StartFailed` and does not model the recursion depth.
- Ledger.CompletedChunkIsCanonical: stated only for a template that ends in a suffix and has no `/`. For a template without a suffix, the rename adds the download's suffix (7.py:262-265), while plan and collection look for the bare formatted name (7.py:969-971, 7.py:1094-1096). Such a chunk is never collected and is planned again on every run. Both templates the program uses have a suffix (`Naming.ProgramTemplatesArePlain`).
- Ledger.InteractWithPage: a download that does not decode is dropped from the directory. The code deletes it only on pydub's `CouldntDecodeError` (7.py:1027-1030); any other exception from `AudioSegment.from_wav` leaves the file in place under its browser name, and the model does not tell the two apart.
- Chunker.SplitSentence: requires `max_length >= 1`. With 0, Python's `range` raises `ValueError`; with a negative limit, a long word is silently dropped. Neither case is modelled.
- Chunker.SmartSplit: requires `max_length >= 1`, for the same reason.
- Chunker.SlicesOfWord: does not state that a word yields exactly ⌈len/`max_length`⌉ slices. It states that all slices but the last are full, which implies the count.
- Merge.SortByIndex: does not state that the sort is stable. Results have distinct indices wherever they come from the collection (`Ledger.CollectAscending`).

## Findings

| source | as written | input that shows it | evidently intended | confidence | as-written member | corrected member |
|---|---|---|---|---|---|---|
| 7.py:73-75 | A sentence longer than `max_length` is split and its pieces are appended at once, while `current` still holds the sentences before it. Those reach the output later, after the pieces. | `smart_split("Hello world. This is a test! Another sentence?", 15)` gives `["Hello world.", "Another", "sentence?", "This is a test!"]` | flush `current` before emitting the oversized sentence's pieces, so the chunks keep text order | not executed | ChunkerFindings.SmartSplitReorders | ChunkerFindings.SmartChunksFixedRoundTrip |
| 7.py:54-60 | A word longer than `max_length` is hard-split only when nothing is buffered. After a buffered word, it is flushed and then yielded whole. | `list(split_sentence("ab abcdef", 3))` gives `["ab", "abcdef"]` | hard-split every word longer than `max_length`, so no piece exceeds it | not executed | ChunkerFindings.SplitSentenceOverlong | ChunkerFindings.SentencePiecesFixedFit |
