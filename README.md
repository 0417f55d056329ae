# AI PDF Renamer — a verified model of the naming and extraction core

AI PDF Renamer renders the first pages of a PDF and asks a vision model for the paper's
title, author and year. It turns the model's free-text reply into a metadata record,
builds a filename `"{year} - {author} - {title}.pdf"` from that record, and copies the PDF
into an output directory under that name without overwriting anything. The repository
holds three revisions of this pipeline:

- the current one, split into `src/pdf_processor.py` (rendering and image encoding),
  `src/metadata_extractor.py` (request building, reply parsing, classified retries),
  `src/file_manager.py` (sanitizing, naming, collision-free copying, the results file)
  and `src/main.py` (argument checks, discovery, the copy gate, call spacing);
- an earlier monolithic revision, `src/pdf_metadata_extractor.py`;
- the oldest revision, `pdf_metadata_extractor.py`, which renames PDFs in place.

The helper `get_unique_output_filename` of `tests/test_demo.py` is modelled too.

This project models that logic in Dafny and proves what each piece promises. One module
covers each source file, and one module covers each earlier revision:

| module | models |
|---|---|
| `Config` | the constants of `src/config.py` |
| `Text` | the Python string operations the source uses (`strip`, `find`, `split`, `lower`, slicing, `pathlib` stems and suffixes) |
| `Json` | decoded JSON values, and ordered dictionaries with Python's `get` and item assignment |
| `Wrappers` | `Option` and `Result` |
| `FileNaming` | `sanitize_filename`, `_process_author_name` and `create_new_filename` of `src/file_manager.py` |
| `FileManager` | the collision loop and result of `copy_pdf_file`, and `update_results_file` |
| `PdfProcessor` | `src/pdf_processor.py` |
| `MetadataExtractor` | `src/metadata_extractor.py` |
| `Orchestrator` | `process_pdf` and `process_directory` of `src/main.py` |
| `MonolithRevision` | `src/pdf_metadata_extractor.py` |
| `FirstRevision` | `pdf_metadata_extractor.py` |
| `DemoNaming` | `get_unique_output_filename` of `tests/test_demo.py` |

Several things that lie outside the program become parameters:

- The filesystem becomes classes:
  - An output directory or a PDF's folder is a class whose `names: set<string>` field the copy or rename methods update.
  - The results file is a class whose `records: Option<seq<Json>>` field is `None` when the file is missing, undecodable or not a list.
  - Whether `mkdir`, `copy2` or `move` raises is an `Option<string>` parameter.
  - How a results write ends is a `WriteOutcome`: written; failed before `open(path, "w")`, leaving the file as it was; or failed inside `json.dump`, after the open has truncated the file, leaving it unreadable as a list.
- The model client is a function from the attempt number to the reply: either its text, or the message of the exception it raised.
- `json.loads` is a function parameter `decode: string -> Decoded`. Its outcome is a decoded value, a `JSONDecodeError` message, or another exception.
- Sleeps are ghost traces of the delays requested.
- Elapsed processing time is an integer number of milliseconds per file.

Some operations appear in several revisions. `sanitize_filename` is the same code in all
three revisions and is defined once, as `FileNaming.Sanitize`. `_create_error_response` of
`src/main.py:34-44` is the same dictionary as the extractor's, so both are
`MetadataExtractor.ErrorRecord`. Each earlier revision is stated against the current one
where they differ. Examples are lemmas such as `MonolithRevision.CommaNameContrast`,
`MonolithRevision.TransientContrast`, `MonolithRevision.FallbackUntruncated` and
`FirstRevision.RateLimitNotRetried`.

A Python exception raised inside a `try` becomes the value the `except` branch returns.
For example, a non-string year in a filename raises in `re.sub`; the model stores that raise
as `Err(TypeErrorMessage(..))`, and the copy then fails with that message.

## Model

| member | source | states |
|---|---|---|
| `FileNaming.CollapseChars` | src/file_manager.py:55 | whitespace collapsing introduces no character but a space and keeps every non-whitespace character |
| `FileNaming.CollapseClean` | src/file_manager.py:55 | text whose whitespace is already single spaces between other characters is left unchanged |
| `FileNaming.ScrubChars` | src/file_manager.py:53-57 | after the three substitutions only plain spaces and input characters that are neither reserved, nor symbols, nor whitespace remain — and every such input character remains |
| `FileNaming.TakeSafe` | src/file_manager.py:58 | cutting a run of safe characters that does not start with whitespace to 100 characters gives a safe component |
| `FileNaming.SanitizeSafe` | src/file_manager.py:47-59 | every output has none of `<>:"/\|?*`, none of the denylisted symbols, no whitespace but the plain space (so no newline), no leading whitespace, and at most 100 characters |
| `FileNaming.UnknownSafe` | src/file_manager.py:49-50 | the placeholder "Unknown" is itself a safe component |
| `FileNaming.SanitizeEmptyIff` | src/file_manager.py:49-58 | the empty string and "Not found" give "Unknown"; the result is the empty string exactly when the input is neither of those and all its characters are dropped (as in "???") |
| `FileNaming.SanitizeFixedPoint` | src/file_manager.py:47-59 | an already clean component (no reserved character or symbol, single inner spaces, at most 100 characters, not the sentinel) is returned unchanged |
| `FileNaming.AlphanumericFixedPoint` | src/file_manager.py:47-59 | a non-empty run of at most 100 ASCII letters and digits is its own sanitized form |
| `FileNaming.ReduceAuthorLeading` | src/file_manager.py:70-83 | the author rules keep the author or return the strip of a leading part of it |
| `FileNaming.ReduceAuthorSafe` | src/file_manager.py:70-83 | the author rules never lengthen the author and keep a sanitized author safe |
| `FileNaming.StripPrefixSafe` | src/file_manager.py:72-81 | the strip of any leading part of a safe component is safe and no longer |
| `FileNaming.ReduceAuthorSingleName` | src/file_manager.py:71-82 | an author with no " and " in any letter case, no " & ", no ";" and at most one comma is kept as it is |
| `FileNaming.ReduceAuthorAnd` | src/file_manager.py:71-72 | with " and " present, the result is the stripped text before its first occurrence, which holds no " and " |
| `FileNaming.ReduceAuthorAndOtherCase` | src/file_manager.py:71-72 | an " and " found only after lower-casing fires the first rule, but the case-sensitive split cuts nothing, so the author is only stripped |
| `FileNaming.ReduceAuthorUpperAnd` | src/file_manager.py:71-72 | "Smith AND Jones" comes back unchanged |
| `FileNaming.ReduceAuthorAndExample` | src/file_manager.py:71-72 | "Smith, J. and Jones, K." gives "Smith, J." |
| `FileNaming.AmpRuleUnreachable` | src/file_manager.py:53-57 | a sanitized author never holds '&', so the `" & "` rule at src/file_manager.py:73-74 can never apply |
| `FileNaming.ReduceAuthorSemicolon` | src/file_manager.py:71-76 | with no " and " in any letter case and no " & ", a ";" cuts the author: the result is the stripped text before the first ";" and holds no ";" |
| `FileNaming.ReduceAuthorCommas` | src/file_manager.py:71-81 | when only the comma rule can apply and there are at least two commas, the author is cut to the stripped text before its first comma (which then holds no comma) exactly when the second comma-separated segment has no generational suffix, and is kept whole when it has one |
| `FileNaming.ReduceAuthorCommasExample` | src/file_manager.py:78-81 | "Smith, Jones, Lee" gives "Smith" |
| `FileNaming.ReduceAuthorSuffixExample` | src/file_manager.py:78-81 | "Smith, Jr., Lee" is kept whole |
| `FileNaming.ReduceAuthorSubstringSuffix` | src/file_manager.py:78-81 | the suffix test is a substring test: "Smith, Olivia, Lee" is kept whole because "olivia" contains "iv" |
| `FileNaming.SingleLetterAuthor` | src/file_manager.py:61-83 | the author "A" is kept as "A" |
| `FileNaming.UnknownAuthorKept` | src/file_manager.py:70-83 | the placeholder "Unknown" passes the author rules unchanged |
| `FileNaming.ListAuthor` | src/file_manager.py:63-68 | a list author is reduced to `str` of its first element before sanitizing; an empty list and a "Not found" first element both give "Unknown" |
| `FileNaming.CreateNewFilenameFails` | src/file_manager.py:85-92 | building the name fails exactly when the year or the title is a truthy non-string value |
| `FileNaming.CreateNewFilenameSafe` | src/file_manager.py:85-92 | every generated name is `year + " - " + author + " - " + title + ".pdf"` over three safe components; it has only safe characters, no "/", ends in ".pdf" with everything before it as its stem, and has between 10 and 310 characters |
| `FileNaming.SanitizeValueSafe` | src/file_manager.py:87-89 | a sanitized field value that does not raise is a safe component |
| `FileNaming.AssembleChars` | src/file_manager.py:91 | the characters of an assembled name are those of its safe components and the fixed text, all safe |
| `FileNaming.AssembleSafe` | src/file_manager.py:91 | a name assembled from safe components is a ".pdf" name without "/", of bounded length |
| `FileNaming.CreateNewFilenameExample` | src/file_manager.py:85-92 | {"title": "T", "author": "A", "year": "2021"} is named "2021 - A - T.pdf" |
| `FileManager.CandidateInjective` | src/file_manager.py:111-114 | different counters give different `"stem (k).pdf"` candidates |
| `FileManager.CandidateNotBase` | src/file_manager.py:107-113 | no candidate equals the generated name itself |
| `FileManager.SlotInjective` | src/file_manager.py:109-114 | every attempt of the loop tries a name not tried before; because the stem is fixed, the counter never nests |
| `FileManager.SlotSetMembers` | src/file_manager.py:109-114 | the names tried in the first `n` attempts are exactly the slots `0` to `n - 1` |
| `FileManager.SlotSetSize` | src/file_manager.py:109-114 | the first `n` attempts try `n` distinct names, so the loop ends within one attempt per existing name |
| `FileManager.ChooseOutputName` | src/file_manager.py:107-114 | the loop returns the least free slot: the generated name when it is free, else `"stem (k).pdf"` with every earlier slot taken; and `k <= |existing|` |
| `FileManager.FirstFreeUnique` | src/file_manager.py:109-114 | the least free slot is unique |
| `FileManager.FirstSlots` | src/file_manager.py:107-113 | slot 0 is the generated name, and slot 1 is `stem + " (1).pdf"` |
| `FileManager.SlotContained` | src/file_manager.py:107-122 | every slot of a generated name is a single non-dot entry of the directory and again a ".pdf" name, so the containment check passes |
| `FileManager.CandidateShape` | src/file_manager.py:113 | a candidate built from a stem without "/" is a contained ".pdf" name |
| `FileManager.CandidateNoSlash` | src/file_manager.py:113 | a candidate built from a stem without "/" has no "/" |
| `FileManager.CandidateStem` | src/file_manager.py:111-113 | a candidate's `pathlib` stem followed by ".pdf" is the candidate |
| `FileManager.CopyInfo` | src/file_manager.py:125-138 | `copied` is truthy exactly for a copy; `source_filename` is always set; a copy reports `output_filename`; a failure reports `error` |
| `FileManager.CopiedAsDeterministic` | src/file_manager.py:94-138 | the directory's contents and which steps raise fix the result and the new contents |
| `FileManager.OutputDirectory.CopyPdfFile` | src/file_manager.py:94-138 | a failing `mkdir`, a non-string field or a failing copy leaves the directory unchanged and reports the error; otherwise the PDF is copied under the least free slot, that name is added and reported, and it stays inside the directory |
| `FileManager.ResultsFile.UpdateResultsFile` | src/file_manager.py:16-45 | returns true exactly when the write succeeds; the file then holds the previous list (or `[]` when missing, undecodable or not a list) followed by the new record; a write that fails before the file is opened changes nothing, and one that fails inside `json.dump` leaves a truncated file that no longer reads as a list |
| `PdfProcessor.ImageFormat` | src/pdf_processor.py:69-71 | "PNG" exactly for the modes RGBA, LA and P; "JPEG" otherwise |
| `PdfProcessor.MimeType` | src/pdf_processor.py:73-75 | "image/png" exactly for "PNG"; "image/jpeg" otherwise |
| `PdfProcessor.ImageToBase64` | src/pdf_processor.py:77-91 | the image is encoded as PNG (without a quality setting) or as JPEG at quality 85, and the MIME type returned is the one of that format |
| `PdfProcessor.PdfToImages` | src/pdf_processor.py:24-67 | the converter runs exactly when the file exists, is readable and is not empty; a failed guard or a failing conversion gives no pages; otherwise the converter's pages are returned |
| `MetadataExtractor.ErrorRecord` | src/metadata_extractor.py:120-130 | the error record has title, author and year "Error", the file name, and the message under `error` |
| `MetadataExtractor.TruncateRaw` | src/metadata_extractor.py:114-116 | a reply of at most 500 characters is kept whole; a longer one becomes its first 500 characters plus "..."; so the result has at most 503 characters |
| `MetadataExtractor.FallbackRecordLaws` | src/metadata_extractor.py:105-118 | the fallback record has no `error` key, three "Could not parse JSON response" fields, the file name, the truncated reply and the parse error (or null) |
| `MetadataExtractor.BraceSliceShape` | src/metadata_extractor.py:79-82 | with both braces present the slice is no longer than the text and, when not empty, starts with a `{` that has none before it and ends with a `}`; without both braces the text is unchanged |
| `MetadataExtractor.LeadingFenceRemoved` | src/metadata_extractor.py:72-74 | a leading "```json" fence and the whitespace after it are removed |
| `MetadataExtractor.TrailingFenceRemoved` | src/metadata_extractor.py:75 | a trailing newline and "```" are removed |
| `MetadataExtractor.FencedReply` | src/metadata_extractor.py:69-82 | a reply fenced as "```json\n{...}\n```" reaches the decoder as exactly the object text inside |
| `MetadataExtractor.WithDefaultsLaws` | src/metadata_extractor.py:89-93 | each missing required field is added as "Not found"; present fields and other keys keep their values |
| `MetadataExtractor.CompletedRecordLaws` | src/metadata_extractor.py:86-96 | a dictionary reply keeps every other key and value; `source_filename` is always the known name; title, author and year are always present |
| `MetadataExtractor.InterpretedLaws` | src/metadata_extractor.py:84-103 | a parsed record has an `error` key only when the decoded dictionary had one; the record always carries the file name |
| `MetadataExtractor.ParsedRecordLaws` | src/metadata_extractor.py:66-103 | the same for the record parsed from a reply text |
| `MetadataExtractor.CleanReply` | src/metadata_extractor.py:69-82 | the step-by-step clean-up yields the text the decoder receives |
| `MetadataExtractor.ParseApiResponse` | src/metadata_extractor.py:66-103 | the step-by-step parse yields the completed record or the right fallback record |
| `MetadataExtractor.CompleteFields` | src/metadata_extractor.py:89-95 | the defaulting loop and the filename stamp yield the completed record |
| `MetadataExtractor.RateLimitDoubles` | src/metadata_extractor.py:189-191 | each rate-limit wait doubles the previous one |
| `MetadataExtractor.TransientDelayBounds` | src/metadata_extractor.py:193-195 | the transient wait is between 5 and 60 seconds, doubles while below 60, and is 60 from the fifth attempt on |
| `MetadataExtractor.DefaultDelays` | src/metadata_extractor.py:169-196 | with base 60, the rate-limit waits after attempts 0 and 1 are 60 and 120 seconds, the transient ones 5 and 10 |
| `MetadataExtractor.RateLimitFirst` | src/metadata_extractor.py:189-196 | a message that is both a rate limit and transient is classified as a rate limit |
| `MetadataExtractor.GenerateIsRateLimit` | src/metadata_extractor.py:132-138 | any message containing "generate" counts as a rate limit, because "rate" is matched as a substring |
| `MetadataExtractor.SliceEnd` | src/metadata_extractor.py:61 | the end of `images[:n]`: `min(n, len)` for `n >= 0`, counted from the end for negative `n` |
| `MetadataExtractor.PreparedParts` | src/metadata_extractor.py:52-64 | one part per image of the slice, in order, with that image's MIME type and encoding |
| `MetadataExtractor.PreparedPartsCount` | src/metadata_extractor.py:58-64 | a non-negative `max_pages` sends `min(len(images), max_pages)` images; without it at most two; each with its own format's MIME type |
| `MetadataExtractor.PrepareImageContent` | src/metadata_extractor.py:52-64 | the append loop builds exactly those parts |
| `MetadataExtractor.AttemptStep` | src/metadata_extractor.py:173-212 | one attempt, case by case: an answer is parsed; a non-retryable message gives "API call failed: …"; a retryable one on the last attempt gives "<type> exceeded after N attempts: …", and before that sleeps its delay and tries again |
| `MetadataExtractor.AttemptOutcome` | src/metadata_extractor.py:175-212 | the same endings stated per kind of reply |
| `MetadataExtractor.AttemptsCount` | src/metadata_extractor.py:173-212 | from attempt `a` on, at least one and at most `max_retries - a` calls, one sleep fewer than calls, and the loop never falls through while attempts remain |
| `MetadataExtractor.DelayHead` | src/metadata_extractor.py:189-203 | a loop that sleeps failed its first attempt with a retryable message, had an attempt left, and sleeps that message's delay |
| `MetadataExtractor.AttemptsDelay` | src/metadata_extractor.py:185-203 | the `i`-th sleep is the delay the `i`-th attempt's message was classified with, so every call but the last failed retryably |
| `MetadataExtractor.ExtractedBounds` | src/metadata_extractor.py:165-216 | no images: "No images to process" with no call; otherwise at most `max_retries` calls and `max_retries - 1` sleeps, and the final return is unreachable when `max_retries >= 1` |
| `MetadataExtractor.ExtractedRecordFilename` | src/metadata_extractor.py:165-216 | every record the extractor returns names the file |
| `MetadataExtractor.Attempt` | src/metadata_extractor.py:175-211 | one pass of the loop body ends the loop as the attempt's ending says, or goes on after exactly the delay the specification sleeps |
| `MetadataExtractor.ExtractMetadataFromImages` | src/metadata_extractor.py:157-216 | the loop returns the specified record, makes the specified number of calls, sleeps the specified delays, and sends the prepared parts |
| `MetadataExtractor.RecordFor` | src/metadata_extractor.py:180-216 | the record returned for each ending: the parsed reply, the error record for the message, or "Failed after N attempts" |
| `Orchestrator.Validation` | src/main.py:55-66 | the checks pass exactly when the path is a non-empty string, `max_pages >= 1`, and the output directory is a string whenever copying to a truthy one; a failure carries one of the three messages |
| `Orchestrator.CheckArguments` | src/main.py:55-66 | the checks in their order yield the first failure's message, or none |
| `Orchestrator.AnnotatedLaws` | src/main.py:85-92 | the copy's dictionary goes under `copy_info`; `output_filename` is added exactly when the copy happened; no other key changes |
| `Orchestrator.CopyStep` | src/main.py:85-92 | a closed gate leaves the record and the directory unchanged; an open gate copies once and annotates the record with that copy's result |
| `Orchestrator.ProcessPdf` | src/main.py:46-95 | a failed check gives its error record with "unknown" or the base name; no pages gives "Failed to convert PDF to images"; otherwise the extracted record, copied behind the gate; a model call only after the checks pass and pages render, at most three |
| `Orchestrator.ProcessedDeterministic` | src/main.py:46-95 | the inputs and the directory's contents fix the record and the new contents |
| `Orchestrator.ProcessedNamesFile` | src/main.py:55-95 | every record names its file: the base name of the path, or "unknown" when the path is not a non-empty string |
| `Orchestrator.ProcessedCopyGate` | src/main.py:73-92 | the output directory changes only when the checks pass, pages render and the gate opens on the extracted record, and then by exactly one new name |
| `Orchestrator.PdfSuffixesValue` | src/main.py:131-136 | the accepted suffixes are ".pdf" and ".pdf" |
| `Orchestrator.IsPdfEntryIff` | src/main.py:133-137 | an entry is discovered exactly when it is a regular file whose last suffix, lower-cased, is ".pdf" |
| `Orchestrator.DiscoveredLaws` | src/main.py:131-137 | discovery keeps exactly the PDF entries, in directory order, and no more entries than the directory has |
| `Orchestrator.DiscoverPdfs` | src/main.py:131-137 | the discovery loop yields exactly that list |
| `Orchestrator.SpacingLaws` | src/main.py:186-194 | the wait never exceeds 6 s; there is none after the last file or an error record; after any other file, processing plus waiting spans at least 6 s; a file that took 6 s or more is not followed by a wait |
| `Orchestrator.SavedAll` | src/main.py:177-184 | when every write succeeds, the results file holds what it held (or nothing) followed by every record of the batch, in order |
| `Orchestrator.SavedAfterTruncation` | src/main.py:177-184 | a dump failing after file `k` loses every record saved before it: with no later file the file stays unreadable, and when every later write succeeds it holds exactly the later files' records, in order |
| `Orchestrator.ProcessEntry` | src/main.py:166-194 | one file is processed as `process_pdf` specifies, its record is saved when a results path is given (appended, left out or truncated away as the write ends), and it waits as the spacing rule says |
| `Orchestrator.ProcessFiles` | src/main.py:165-196 | one record per discovered file, in order, each as `process_pdf` specifies on the directory contents left by the previous files; the waits follow the spacing rule; the results file is the fold of the writes: a successful write appends, a write failing before the open changes nothing, and a failing dump truncates the file |
| `Orchestrator.ProcessDirectory` | src/main.py:97-196 | a rejected path, `max_pages`, missing directory, non-directory, unreadable directory or failed scan gives `[]` and changes nothing; otherwise the batch over the discovered files, with the results file as that batch leaves it |
| `Orchestrator.BasenameOfJoin` | src/main.py:69 | the base name of `directory / name` is the entry's name |
| `Orchestrator.BatchNamesFiles` | src/main.py:166-175 | the `j`-th record of a batch names the `j`-th discovered file |
| `MonolithRevision.FirstAuthorAnd` | src/pdf_metadata_extractor.py:87-88 | with a case-sensitive " and ", the author is the stripped text before it, which holds no " and " |
| `MonolithRevision.FirstAuthorComma` | src/pdf_metadata_extractor.py:89-90 | otherwise any comma cuts: the author is the stripped text before the first comma, which holds none |
| `MonolithRevision.FirstAuthorLeading` | src/pdf_metadata_extractor.py:87-90 | the rule keeps the author or strips a leading part of it |
| `MonolithRevision.FirstAuthorSafe` | src/pdf_metadata_extractor.py:84-90 | a sanitized author stays a safe component |
| `MonolithRevision.CreateNewFilenameSafe` | src/pdf_metadata_extractor.py:75-93 | every generated name has only safe characters, no "/", ends in ".pdf" and has at most 310 characters |
| `MonolithRevision.SameAuthorSameName` | src/pdf_metadata_extractor.py:75-93 | this revision builds the current revision's name whenever the two author rules agree |
| `MonolithRevision.SameNameForSingleAuthor` | src/pdf_metadata_extractor.py:75-93 | an author without " and " in any case, " & ", ";" or a comma gets the same name in both revisions |
| `MonolithRevision.CommaNameContrast` | src/pdf_metadata_extractor.py:87-90 | "Smith, J." becomes "Smith" here, while the current revision keeps it whole |
| `MonolithRevision.CopyPdfFile` | src/pdf_metadata_extractor.py:95-128 | the same least-free-slot copy as the current revision, without the containment check |
| `MonolithRevision.CopyStaysInside` | src/pdf_metadata_extractor.py:104-114 | every name copied under is nevertheless a fresh, contained ".pdf" name, and only that name is added |
| `MonolithRevision.UpdateResultsFile` | src/pdf_metadata_extractor.py:39-63 | succeeds exactly when the path has a directory part and the write succeeds (the unconditional `makedirs("")` raises otherwise); the store is then the previous list (or `[]`) plus the new record; a missing directory part or a failure before the open changes nothing, and a failing dump leaves a truncated file |
| `MonolithRevision.FencedReply` | src/pdf_metadata_extractor.py:192-199 | a reply fenced as "```json…```" reaches the decoder as its stripped body |
| `MonolithRevision.UnfencedReply` | src/pdf_metadata_extractor.py:192-199 | without those exact fences the reply is only stripped: no "```JSON" fence is removed and no brace slice is taken |
| `MonolithRevision.FallbackRecordLaws` | src/pdf_metadata_extractor.py:204-212 | the fallback record has no `error` key, three "Could not parse JSON response" fields, the file name, the whole reply and the parse error |
| `MonolithRevision.FallbackUntruncated` | src/pdf_metadata_extractor.py:210 | a reply longer than 503 characters is stored whole, unlike the current revision's truncated copy |
| `MonolithRevision.AnswerLaws` | src/pdf_metadata_extractor.py:191-212 | a decoded dictionary is returned as the model wrote it, apart from `source_filename`, with no defaulting; a returned record names the file |
| `MonolithRevision.CleanReply` | src/pdf_metadata_extractor.py:192-199 | the step-by-step clean-up yields the text the decoder receives |
| `MonolithRevision.ParseReply` | src/pdf_metadata_extractor.py:191-212 | the step-by-step parse yields the specified outcome |
| `MonolithRevision.PngPartsCount` | src/pdf_metadata_extractor.py:180-185 | a non-negative `max_pages` sends `min(len(images), max_pages)` images, otherwise at most two, each as "image/png" |
| `MonolithRevision.BuildImageParts` | src/pdf_metadata_extractor.py:180-185 | the append loop builds exactly those parts |
| `MonolithRevision.ErrorRecord` | src/pdf_metadata_extractor.py:230-243 | the error records of this revision hold only `error` and `source_filename` |
| `MonolithRevision.NoImagesRecord` | src/pdf_metadata_extractor.py:151-152 | an empty image list gives `{"error": "No images to process"}`, without a file name |
| `MonolithRevision.OutcomeNamesFile` | src/pdf_metadata_extractor.py:191-212 | a record an attempt returns names the file |
| `MonolithRevision.OutcomesNameFile` | src/pdf_metadata_extractor.py:179-212 | every attempt's returned record names the file |
| `MonolithRevision.AttemptsFilename` | src/pdf_metadata_extractor.py:178-243 | the loop's record names the file |
| `MonolithRevision.AttemptStep` | src/pdf_metadata_extractor.py:178-238 | one attempt, case by case: a returned record ends the loop; a non-rate-limit message gives "API call failed: …"; a rate limit on the last attempt gives "Rate limit exceeded after 3 attempts: …", and before that sleeps and retries |
| `MonolithRevision.AttemptsCount` | src/pdf_metadata_extractor.py:178-238 | from attempt `a` on, between one and `3 - a` calls and one sleep fewer |
| `MonolithRevision.DelayHead` | src/pdf_metadata_extractor.py:217-228 | a loop that sleeps was rate limited at its first attempt, had another left, and sleeps `60 * 2^attempt` |
| `MonolithRevision.AttemptsDelay` | src/pdf_metadata_extractor.py:217-228 | only rate limits are waited for: the `i`-th sleep follows a rate-limited attempt and is `60 * 2^(a + i)` |
| `MonolithRevision.NonRateLimitGivesUp` | src/pdf_metadata_extractor.py:234-238 | any other exception ends the loop at once with "API call failed: …" |
| `MonolithRevision.TransientContrast` | src/pdf_metadata_extractor.py:214-238 | a transient failure on the first attempt makes one call and no sleep here, while the current revision sleeps and calls again |
| `MonolithRevision.CallModel` | src/pdf_metadata_extractor.py:179-212 | the inner `try` of one attempt yields the specified outcome and request |
| `MonolithRevision.Attempt` | src/pdf_metadata_extractor.py:179-238 | one pass of the loop body returns the specified record, or goes on after the rate-limit delay |
| `MonolithRevision.ExtractMetadataFromImages` | src/pdf_metadata_extractor.py:148-243 | the loop returns the specified record, makes the specified calls, sleeps the specified delays, and sends the PNG parts |
| `MonolithRevision.ProcessPdf` | src/pdf_metadata_extractor.py:245-273 | no pages gives the two-key "Failed to convert PDF to images" record; otherwise the extracted record, copied and annotated behind the gate |
| `MonolithRevision.ProcessedLaws` | src/pdf_metadata_extractor.py:245-273 | every record names its file; the directory changes only behind the gate, by one fresh contained name |
| `MonolithRevision.GlobMembers` | src/pdf_metadata_extractor.py:286 | a glob keeps exactly the matching entries |
| `MonolithRevision.PdfDiscovery` | src/pdf_metadata_extractor.py:284-286 | the file list is the "*.pdf" glob followed by the "*.PDF" glob |
| `MonolithRevision.CaseSensitiveDiscovery` | src/pdf_metadata_extractor.py:284-286 | under case-sensitive matching an entry is listed exactly when its name ends in ".pdf" or ".PDF", so "a.Pdf" is not |
| `MonolithRevision.FoldedDiscoveryTwice` | src/pdf_metadata_extractor.py:284-286 | under case-insensitive matching both globs find the same files, so each PDF is listed twice |
| `MonolithRevision.DiscoverPdfs` | src/pdf_metadata_extractor.py:284-286 | the discovery loop yields exactly that list |
| `MonolithRevision.SpacingLaws` | src/pdf_metadata_extractor.py:324-329 | the pause is all or nothing: the full 6 s exactly after a file that is neither the last nor an error; never shorter than the current revision's wait |
| `MonolithRevision.BarePathNeverSaved` | src/pdf_metadata_extractor.py:43 | results under a path without a directory part are never written |
| `MonolithRevision.SavedAll` | src/pdf_metadata_extractor.py:316-322 | with a directory part and every write succeeding, the file holds its previous records followed by the batch's, in order |
| `MonolithRevision.SavedAfterTruncation` | src/pdf_metadata_extractor.py:316-322 | with a directory part, a dump failing after file `k` loses every earlier record: the file is unreadable, or holds exactly the later files' records when their writes succeed |
| `MonolithRevision.ProcessEntry` | src/pdf_metadata_extractor.py:307-329 | one file is processed, saved (appended, left out or truncated away as the write ends) and followed by its pause as specified |
| `MonolithRevision.ProcessFiles` | src/pdf_metadata_extractor.py:307-331 | one record per listed file, in order, as `process_pdf` specifies on the contents left by the previous files; pauses as specified; the results file is the fold of the writes, a failing dump truncating it |
| `MonolithRevision.ProcessDirectory` | src/pdf_metadata_extractor.py:275-331 | the batch over the concatenated globs, with no argument or directory checks, and the results file as that batch leaves it |
| `MonolithRevision.BatchNamesFiles` | src/pdf_metadata_extractor.py:307-314 | the `j`-th record names the `j`-th listed file |
| `FirstRevision.CreateNewFilenameSafe` | pdf_metadata_extractor.py:49-63 | every generated name has only safe characters, no "/" and ends in ".pdf" |
| `FirstRevision.SanitizeString` | pdf_metadata_extractor.py:52 | a string author is sanitized as the string itself |
| `FirstRevision.StringAuthorSameName` | pdf_metadata_extractor.py:49-63 | with a string author this revision builds the monolithic revision's name, or fails with the same message |
| `FirstRevision.ListAuthorFails` | pdf_metadata_extractor.py:51-53 | a non-empty list author makes `re.sub` raise, so no name is built |
| `FirstRevision.ListAuthorNamedLater` | pdf_metadata_extractor.py:49-63 | such a record is named by the monolithic revision, which takes the list's first author |
| `FirstRevision.RenameInfoLaws` | pdf_metadata_extractor.py:86-105 | `renamed` is truthy exactly for a move; a move reports the old and new names; a no-op reports "Same filename" and the name; a failure reports `error` and the old name |
| `FirstRevision.StopsAtUnique` | pdf_metadata_extractor.py:76-81 | the collision loop stops at one slot only |
| `FirstRevision.StopName` | pdf_metadata_extractor.py:75-81 | the loop stops at the first slot that is free or is the file's own name, every earlier slot being taken by another file, within one attempt per name |
| `FirstRevision.Folder.RenamePdfFile` | pdf_metadata_extractor.py:65-105 | a failed name gives the error result; the file's own name gives "Same filename" and no move; otherwise a failing move reports its error and a successful one trades the old name for the stop name |
| `FirstRevision.RenamedAsDeterministic` | pdf_metadata_extractor.py:65-105 | the folder's contents and the move's outcome fix the result and the new contents |
| `FirstRevision.RenameNeverOverwrites` | pdf_metadata_extractor.py:75-92 | a move goes to a ".pdf" name in the same folder that was free and differs from the old name, and the folder trades exactly the old name for it; nothing else changes the folder |
| `FirstRevision.RenameKeepsCount` | pdf_metadata_extractor.py:84-85 | trading a name for a free one keeps the number of files |
| `FirstRevision.AlreadyNamed` | pdf_metadata_extractor.py:78-98 | a file that already carries its generated name is left where it is, reported as "Same filename" |
| `FirstRevision.RenameIdempotent` | pdf_metadata_extractor.py:65-105 | renaming a moved file again to the same generated name is a "Same filename" no-op |
| `FirstRevision.ExtractedLaws` | pdf_metadata_extractor.py:124-196 | no images gives `error` without a file name; every other record names the file; any exception gives "API call failed: …"; an undecodable reply gives the fallback record, which has no `error` |
| `FirstRevision.RateLimitNotRetried` | pdf_metadata_extractor.py:192-196 | a rate limit is not retried here, while the monolithic revision makes a second call |
| `FirstRevision.ExtractMetadataFromImages` | pdf_metadata_extractor.py:124-196 | a single call, none for no images, sending the first two pages as PNG, returning the specified record |
| `FirstRevision.AnnotatedLaws` | pdf_metadata_extractor.py:216-223 | after a move the record names the new file and keeps the old name under `original_filename`; otherwise `source_filename` is unchanged; `rename_info` holds the result |
| `FirstRevision.ProcessPdf` | pdf_metadata_extractor.py:198-226 | three pages are rendered; no pages gives "Failed to convert PDF to images"; otherwise the extracted record, renamed behind the gate; at most one call, exactly when pages render |
| `FirstRevision.ProcessedLaws` | pdf_metadata_extractor.py:198-226 | an unchanged folder leaves `source_filename` the base name; a changed one means a move to a free ".pdf" name that `source_filename` reports, with the old name kept |
| `FirstRevision.ListedMembers` | pdf_metadata_extractor.py:231 | the glob keeps exactly the entries whose name ends in ".pdf" under the platform's case rule |
| `FirstRevision.ProcessDirectory` | pdf_metadata_extractor.py:228-241 | one record per listed file, in order, each processed as specified on the folder left by the previous files |
| `FirstRevision.BatchNamesFiles` | pdf_metadata_extractor.py:228-241 | the `j`-th record names the `j`-th listed file, as `source_filename` when it stayed and as `original_filename` when it moved |
| `DemoNaming.NumberedInjective` | tests/test_demo.py:47-52 | different counters give different `"{stem}_{k}{suffix}"` names |
| `DemoNaming.NumberedKeepsSuffix` | tests/test_demo.py:43-48 | a numbered name keeps the base's suffix, and its stem is the base's stem followed by "_" and the counter |
| `DemoNaming.NumberedLater` | tests/test_demo.py:47-52 | a later counter gives a name not tried before |
| `DemoNaming.NumberedSetSize` | tests/test_demo.py:47-52 | counters 1 to n try n distinct names, so the loop ends on a finite directory |
| `DemoNaming.FirstNumberedUnique` | tests/test_demo.py:47-52 | only one counter is the first free one |
| `DemoNaming.GetUniqueOutputFilename` | tests/test_demo.py:33-52 | a free base name is returned as it is; otherwise the name with the least free counter `k >= 1`, every earlier one being taken, and `k <= |existing| + 1` |

## Left out

- Foreign libraries:
  - the Gemini SDK calls and the prompt text;
  - `pdf2image` rendering, PIL saving and base64 encoding: images are opaque values with a `mode`, and an encoding records the image, the format and the quality;
  - `json.loads` and `json.dump`: decoding is a function parameter, and no JSON grammar is modelled.
- Clocks and sleeps: waits are ghost traces. Elapsed time is a given integer number of milliseconds, in place of `time.time()`'s float seconds.
- Filesystem side effects:
  - `mkdir`, `copy2`, `move`, `os.access`, `exists` and the results write are modelled only as "raises or not" parameters and as the set-of-names fields they change;
  - `Path.resolve()` and `relative_to` (src/file_manager.py:117-122) depend on symlinks, so only lexical containment of the chosen name is proved;
  - paths are joined as `dir + "/" + name`, without `pathlib` normalisation;
  - directory and glob order is the order of the given entry list.
- Entry points and output: every `main()`, `parse_arguments`, `.env` loading, `input()` and every `print`.
- Unicode: `lower()` and the regex `\s` are modelled on ASCII letters and a fixed whitespace set.
- `str()` and `repr` of lists and dictionaries are simplified: strings are always single-quoted and never escaped.
- The results file's `makedirs` of the current revision is folded into the write outcome (a failure before the open).
- `FileManager.ResultsFile.UpdateResultsFile`: a dump cut inside a multi-byte UTF-8 sequence leaves bytes that are not valid UTF-8; the next read then raises `UnicodeDecodeError`, which the inner `except (json.JSONDecodeError, IOError)` does not catch, so that update returns `False`. The model treats every unreadable file alike, as one the next update starts afresh.
- In `Orchestrator.ProcessDirectory`:
  - a directory that exists, is a directory and is readable is described by flags;
  - a scan failure is one flag covering both `except` branches.
- `MonolithRevision.ProcessDirectory`: a missing directory is modelled as an empty entry list. The platform's glob case rule is the `foldCase` parameter.
- `FirstRevision.ProcessDirectory`: the folder's names are not tied to the listed entries. The renames of one batch and the listing are related only through the results.
- `FirstRevision.ExtractMetadataFromImages`: encoding an image cannot fail in the model, so the `except` at pdf_metadata_extractor.py:192-196 is reached only through the model call or the reply handling.
- `MetadataExtractor.PrepareImageContent`, `MetadataExtractor.ExtractMetadataFromImages` and `MonolithRevision.BuildImageParts`: encoding an image cannot fail in the model either. In the source the encoding runs inside the retry `try` (src/metadata_extractor.py:175-177, src/pdf_metadata_extractor.py:180-185), so a PIL save error is classified like a model error, "API call failed: …" for most messages, without any model call; the model always calls the model at least once for a non-empty image list.
- `DemoNaming.GetUniqueOutputFilename`:
  - the `mkdir` at tests/test_demo.py:36 is left out;
  - whether `output_path / base_filename` exists is membership of `base_filename` itself in `existing`, the names of the output directory, so a base name holding `/` is one entry of that set; the numbered names, built from the base name's last component, are looked up the same way.
- `DemoNaming.NumberedKeepsSuffix`: stated only for a base name with a suffix. For a name ending in "." (whose `pathlib` suffix is empty), the numbered name `"a._1"` gains a suffix of its own.
- `src/version.py`, the constants-only `config.py` files and the setup and demo scripts hold no logic of the core.
