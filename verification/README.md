# Case-analysis assistant: model of the request pipeline and helper logic

This project models, in Dafny, the logic of a wrongful-conviction case-analysis application. It does not model the language-model, database or vector-store calls that logic depends on. The model has four groups.

- **Analysis request pipeline.**
  - The Next.js routes `POST /api/analyze`, `/api/analyze-single` and `/api/detect`.
  - These routes:
    - validate a submission;
    - detect whether the documents concern several people, failing open on the analyze route only;
    - split a bulk request into one case per person, choosing each person's files by index;
    - assemble the ordered prompt parts (text parts and inline-data parts);
    - pick a case name;
    - write one parent row plus six child-row collections tagged with the parent id.
- **Transcription.**
  - `POST /api/transcribe`: request checks, filtering of valid speaker entries, transcript formatting with speaker-change headers, and the summary fields.
  - The transcribe page's client logic: renaming speakers, the display name, colouring and the download name.
- **Client list and state logic.**
  - The browser-stored list of analyses: save, read, find and delete.
  - The dashboard:
    - the sort state machine and comparator;
    - the innocence thresholds;
    - expiry of the "new" tags;
    - the delete filter.
  - The upload MIME filters and remove-by-index of the document form.
  - The risk-score colour bands.
- **Backend retrieval helpers.**
  - Citation extraction with order-preserving deduplication.
  - Page and paragraph numbering and chunk ids when documents are processed.
  - The client-scoped filter-then-truncate search.
  - File-name suffix checks and sanitising.
  - The required-settings check.

Every external call is a function-valued parameter, so a property proved here holds whatever those services answer:
- `Gateway.Services` bundles the services a route uses:
  - `generate` is the model call;
  - `parseDetection`, `parseAnalysis` and `parseJson` are the parses of its reply;
  - `insertParent` is the database insert.
- The backend parts take the PDF and DOCX readers, the text splitter and the index's `similaritySearch` and `addDocuments` as parameters in the same way.

A route returns an `Outcome`: its HTTP response together with the log of external effects it caused, in order. Each effect is a model call with its kind and parts, a parent-row insert or a child-row insert. This is how the model states facts such as:
- "no call before validation";
- "exactly one analysis request";
- "a bulk request never transcribes";
- "the placeholder row stays behind".

The model follows what the code does, including these behaviours:
- **Bulk mode is sequential.** There is no per-case catch, so the first failed person ends the request with a 500, and `count` is the number of records saved. There are no progress events.
- **Bulk file selection.** It indexes only the document-file list (`pdfFiles`), with no offset for audio files. It sends neither the free text nor any audio.
- **Transcription failure.** A failure in `transcribeAudioFile` is rewrapped by `analyzeCaseDocuments` into the one fixed analysis error.
- **Child-row inserts.** Their results are never inspected: once the parent insert succeeds, the save succeeds whenever every collection is present.
- **Empty reply on `/api/analyze-single`.** It parses as an empty object. The route therefore inserts a parent row named `Unknown Case`, and the row-mapping step fails on it. The row stays behind and the request answers 500.
- **Free text in prompts.** The analysis prompt embeds the free text whenever it is a non-empty string, including text that is only whitespace. Detection and the analyze-single route test the trimmed text.

The dashboard starts with the sort state `(date, desc)`, the constant `Dashboard.InitialSort`.

## Model

| member | source | states |
|---|---|---|
| AnalysisStorage.GetAll | frontend/lib/analysisStorage.ts:30-41 | Outside a browser, with nothing stored, or with a value that does not parse, the list is empty; otherwise it is the stored list. |
| AnalysisStorage.NewId | frontend/lib/analysisStorage.ts:14 | Every generated id starts with `case-` and continues past it. |
| AnalysisStorage.DifferentTimesDifferentIds | frontend/lib/analysisStorage.ts:14 | Ids generated at different times differ, whatever random suffix follows. |
| AnalysisStorage.Save | frontend/lib/analysisStorage.ts:13-28 | The list grows by exactly one record, which comes first. That record carries the returned id, the case name, the creation date and the analysis's own risk score. The earlier records follow unchanged and in order. |
| AnalysisStorage.FindById | frontend/lib/analysisStorage.ts:43-46 | No result exactly when no record has the id; otherwise the first record with that id. |
| AnalysisStorage.GetById | frontend/lib/analysisStorage.ts:43-46 | Lookup in the stored list: none iff no stored record has the id, otherwise the first one that does. |
| AnalysisStorage.SaveThenGet | frontend/lib/analysisStorage.ts:13-46 | Immediately after a save, looking up the returned id gives the new record, whatever was stored before. |
| AnalysisStorage.SaveOverUnparseable | frontend/lib/analysisStorage.ts:23-40 | A stored value that does not parse is overwritten by a list holding only the new record. |
| AnalysisStorage.Delete | frontend/lib/analysisStorage.ts:48-52 | Every record with the id is removed. The others stay, in their order. A lookup of the id then finds nothing. |
| AnalysisStorage.DeleteIdempotent | frontend/lib/analysisStorage.ts:48-52 | Deleting twice is deleting once. |
| AnalysisStorage.DeleteAbsentKeepsList | frontend/lib/analysisStorage.ts:48-52 | Deleting an id no record has leaves the list as it was. |
| RiskScore.ScoreColorOf | frontend/components/RiskScore.tsx:4-8 | Red exactly above 75; amber exactly in (50, 75]; green exactly at or below 50. Every score gets exactly one band. |
| RiskScore.ColorMonotone | frontend/components/RiskScore.tsx:4-8 | The bands are monotone: a higher score is never in a lower band. |
| RiskScore.BandEdges | frontend/components/RiskScore.tsx:5-7 | 75 itself is amber (`text-amber-500`), and 50 itself is green. |
| DocumentInput.AnalyzeClick | frontend/components/DocumentInput.tsx:16-20 | The form is submitted unchanged exactly when the text is not blank or some document or audio file is present. |
| DocumentInput.DisabledIffNoAnalysis | frontend/components/DocumentInput.tsx:209 | The button is disabled exactly when the click would submit nothing. |
| DocumentInput.UploadFiles | frontend/components/DocumentInput.tsx:22-50 | An absent or empty selection changes nothing. Otherwise the selected files of an accepted type are appended after the existing ones, in selection order, and every accepted file appears. The skipped count is the number of files rejected. |
| DocumentInput.FilterSplitsLength | frontend/components/DocumentInput.tsx:32-40 | Every selected file is either kept or skipped, never both. |
| DocumentInput.UploadDocuments | frontend/components/DocumentInput.tsx:22-50 | A document upload changes only the document list, using the document MIME filter. |
| DocumentInput.UploadAudio | frontend/components/DocumentInput.tsx:60-91 | An audio upload changes only the audio list, using the six audio MIME types. |
| DocumentInput.RemoveAt | frontend/components/DocumentInput.tsx:52-54 | Removing index i deletes exactly that element and keeps the others in order. An out-of-range index changes nothing. |
| DocumentInput.UploadThenRemove | frontend/components/DocumentInput.tsx:43-54 | Removing a file just uploaded restores the list from before the upload. |
| DocumentInput.NothingAcceptedChangesNothing | frontend/components/DocumentInput.tsx:32-44 | A selection with no accepted file leaves the form, and whether it can be analysed, unchanged. |
| Dashboard.HandleSort | frontend/app/dashboard/page.tsx:90-99 | Clicking the active column flips the direction. Clicking another column selects it ascending. |
| Dashboard.SortClicksTwice | frontend/app/dashboard/page.tsx:90-99 | Two clicks on the active column restore the state. Two clicks on a new column leave it descending. |
| Dashboard.LexIrreflexive | frontend/app/dashboard/page.tsx:124-125 | No name sorts before itself. |
| Dashboard.LexTrichotomy | frontend/app/dashboard/page.tsx:124-125 | Any two different names are ordered one way or the other. |
| Dashboard.LexTransitive | frontend/app/dashboard/page.tsx:124-125 | The name order is transitive. |
| Dashboard.CompareProperties | frontend/app/dashboard/page.tsx:102-127 | The comparator is antisymmetric, total and transitive in every sort state, so the sort is well defined. |
| Dashboard.Insert | frontend/app/dashboard/page.tsx:101-130 | Inserting into a sorted list gives a sorted list with one more copy of the item. |
| Dashboard.SortedAnalyses | frontend/app/dashboard/page.tsx:101-130 | The displayed list is a permutation of the analyses, sorted by the chosen column and direction. |
| Dashboard.ScoreAndAssessmentAgree | frontend/app/dashboard/page.tsx:115-119 | Sorting by score and by assessment gives the same list, since both use the risk score. |
| Dashboard.SameComparatorSameSort | frontend/app/dashboard/page.tsx:101-130 | Two sort states that order every pair alike produce the same list. |
| Dashboard.KeyOf | frontend/app/dashboard/page.tsx:106-122 | Names compare lowercased; dates compare as time values; score and assessment both compare the risk score. |
| Dashboard.InnocenceLevelOf | frontend/app/dashboard/page.tsx:164-168 | Likely innocent exactly at 70 or above; uncertain exactly in [40, 70); likely guilty exactly below 40. |
| Dashboard.InnocenceColor | frontend/app/dashboard/page.tsx:158-162 | Green exactly at 70 or above; red exactly below 40. |
| Dashboard.ColourAgreesWithLevel | frontend/app/dashboard/page.tsx:158-168 | The colour is the colour of the level. Scores at different levels get different colours and different labels. |
| Dashboard.TagIds | frontend/app/dashboard/page.tsx:68 | The shown set holds exactly the ids of the given tags. |
| Dashboard.CleanupTags | frontend/app/dashboard/page.tsx:45-69 | With nothing stored, nothing changes. Otherwise: the list is written back exactly when some tag expired; what is written is the unexpired tags in order; the shown set becomes exactly their ids. |
| Dashboard.FilterShorterIffDropped | frontend/app/dashboard/page.tsx:56-64 | Filtering shortens the tag list exactly when some tag is older than the limit. |
| Dashboard.CleanupIdempotent | frontend/app/dashboard/page.tsx:45-69 | A second cleanup at the same time writes nothing and shows the same ids. |
| Dashboard.ClearStoredRecords | frontend/app/dashboard/page.tsx:25-30 | On mount in a browser, the record-list slot is removed; outside a browser nothing changes. |
| Dashboard.MountForgetsStoredRecords | frontend/app/dashboard/page.tsx:25-30 | After mounting, the browser-side list reads as empty, and the next save leaves only the record it saves. |
| Dashboard.AfterDelete | frontend/app/dashboard/page.tsx:136-156 | A failed delete leaves the list alone. A successful one keeps exactly the rows with other ids. |
| Dashboard.DeleteKeepsOrder | frontend/app/dashboard/page.tsx:150 | The delete filter works piecewise, so the surviving rows keep their relative order. |
| TranscribePage.Keys | frontend/app/transcribe/page.tsx:68-71 | The speaker labels of the name table, in insertion order. |
| TranscribePage.Lookup | frontend/app/transcribe/page.tsx:90 | No name exactly when the label is absent; otherwise a name stored under the label. |
| TranscribePage.InitialNames | frontend/app/transcribe/page.tsx:53-59 | After a transcription, the labels are the distinct speakers in the order in which they first speak, and every label is mapped to itself. |
| TranscribePage.Rename | frontend/app/transcribe/page.tsx:67-72 | Renaming keeps the labels, adding the renamed one at the end when it was new. |
| TranscribePage.RenameLookup | frontend/app/transcribe/page.tsx:67-72 | The renamed label maps to the new name, or back to itself when the new name is empty. Every other label's mapping is unchanged. |
| TranscribePage.UnchangedWithoutCustomNames | frontend/app/transcribe/page.tsx:74-87 | With no custom name, the download text is the formatted transcript. |
| TranscribePage.SingleRenameReplacesEveryLabel | frontend/app/transcribe/page.tsx:78-84 | With one renamed speaker, every `label:` in the transcript becomes `custom:`. |
| TranscribePage.DisplaySpeaker | frontend/app/transcribe/page.tsx:89-91 | The mapped name when it is non-empty, otherwise the raw label. |
| TranscribePage.ClearingRestoresLabel | frontend/app/transcribe/page.tsx:67-91 | Clearing a speaker's name displays the raw label again. |
| TranscribePage.SpeakerColorIndex | frontend/app/transcribe/page.tsx:93-104 | A present speaker's index is its position among the distinct speakers, in first-speaking order, modulo six. An absent speaker has none. |
| TranscribePage.SpeakerColor | frontend/app/transcribe/page.tsx:93-104 | A colour exactly for the speakers that occur: the palette entry at the speaker's first-speaking rank modulo six. |
| TranscribePage.FirstSixColoursDiffer | frontend/app/transcribe/page.tsx:93-104 | Two different speakers among the first six to speak get different colours. |
| TranscribePage.CustomNamesIndicator | frontend/app/transcribe/page.tsx:306 | A fresh table shows no custom names. Renaming a speaker to a new non-empty name shows the indicator. |
| TranscribePage.StripExtension | frontend/app/transcribe/page.tsx:296 | Drops the last dot and what follows it when that tail is non-empty and holds no `/` or dot. Otherwise the name is unchanged, because no such extension exists. |
| TranscribePage.DownloadName | frontend/app/transcribe/page.tsx:296 | `transcript_` followed by the stripped file name and `.txt`. |
| TranscribeRoute.ValidEntries | frontend/app/api/transcribe/route.ts:84-95 | Only entries whose timestamp, speaker and dialogue are all strings are kept. The result is empty exactly when no item is valid. |
| TranscribeRoute.ValidEntriesAppend | frontend/app/api/transcribe/route.ts:84-89 | The filter works piecewise and keeps the original order. |
| TranscribeRoute.AllValidKept | frontend/app/api/transcribe/route.ts:84-89 | When every item is valid, every one is kept, in order. |
| TranscribeRoute.OuterMessage | frontend/app/api/transcribe/route.ts:101-108 | A message containing `API key not valid` becomes the fixed configuration error. Any other message is prefixed `Failed to transcribe audio: `. |
| TranscribeRoute.TranscribeWithSpeakers | frontend/app/api/transcribe/route.ts:32-109 | One model call. Success exactly when the reply is a non-blank JSON array with at least one valid entry; the result is then those entries. A thrown call keeps its message; a blank reply and any other reply give the two fixed inner messages. |
| TranscribeRoute.NoMarkerInFixedMessages | frontend/app/api/transcribe/route.ts:96-107 | The inner messages never turn into the API-key error. |
| TranscribeRoute.FormatTranscription | frontend/app/api/transcribe/route.ts:112-126 | The header, then exactly one block per entry in order, then the end marker. A block is the dialogue line, preceded by a `[timestamp] speaker:` line exactly when the speaker changes. |
| TranscribeRoute.FormatBodyIsBlocks | frontend/app/api/transcribe/route.ts:115-122 | The body is exactly one block per entry, in order. Each block is the entry's dialogue line, preceded by a `[timestamp] speaker:` header exactly when the speaker differs from the previous one. |
| TranscribeRoute.FormatBodyAppend | frontend/app/api/transcribe/route.ts:115-122 | Formatting a split list continues from the first part's last speaker. |
| TranscribeRoute.BlocksAppend | frontend/app/api/transcribe/route.ts:116-122 | The blocks of a split list are the blocks of each part, the second part starting after the first part's last speaker. |
| TranscribeRoute.DistinctSpeakers | frontend/app/api/transcribe/route.ts:179 | Every speaker that occurs, each once and nothing else, listed in the order in which they first speak. |
| TranscribeRoute.SpeakerCount | frontend/app/api/transcribe/route.ts:179 | The number of distinct speakers: at most the number of entries, and at least one when there is an entry. |
| TranscribeRoute.Duration | frontend/app/api/transcribe/route.ts:180-182 | The last entry's timestamp, or `00:00:00` when there is none. |
| TranscribeRoute.CheckRequest | frontend/app/api/transcribe/route.ts:133-164 | A request passes exactly when a file is present, its type is one of the six audio types, and its size is at most 50 MiB. A missing file gives the no-file message. The type is checked before the size, so an oversized file of the wrong type gets the type message. |
| TranscribeRoute.Post | frontend/app/api/transcribe/route.ts:128-192 | A rejected request is a 400 with that message and makes no call. An accepted one answers exactly when the transcription succeeds, and otherwise is a 500 with the transcription's message. A success carries the file name, the transcription's entries, their formatted transcript, the distinct-speaker count and the last timestamp. |
| TranscribeRoute.SizeLimitIsInclusive | frontend/app/api/transcribe/route.ts:157-164 | A file of exactly 50 MiB is accepted; one byte more is refused as too large. |
| DetectRoute.Post | frontend/app/api/detect/route.ts:6-104 | Exactly one detection call, with the detection parts and this route's own response schema. Any failure is the fixed 500. The people are returned exactly when the reply is non-blank and parses, and they are what it parses to. |
| DetectRoute.DetectRoutesAgree | frontend/app/api/detect/route.ts:41-103 | For the same text and documents, this route and the analyze route each make one detection call with the same parts, under different response schemas. When the service answers both alike, a thrown call or a blank reply is a 500 here, where the analyze route falls back to a single person. |
| Prompts.DetectionFileParts | frontend/app/api/detect/route.ts:65-80 | A `text/plain` file gives one part: its `File i` header followed by its text. Any other file gives the header part followed by its inline data. |
| Prompts.DetectionFilesPartsAppend | frontend/app/api/detect/route.ts:59-82 | File labels continue across a split of the file list. |
| Prompts.FileLabelledByPosition | frontend/app/api/detect/route.ts:60-81 | The file at upload position k is labelled `File k`, after all earlier files and before all later ones. |
| Prompts.DetectionParts | frontend/app/api/detect/route.ts:51-82 | The fixed instruction first. Then the free-text part, present exactly when the trimmed text is non-empty. Then every file's parts, and nothing else: the count is one, plus one for the text, plus the files' parts. |
| Prompts.FirstFileHeaderIsNotDocuments | frontend/app/api/detect/route.ts:53-72 | A file header can never be mistaken for the free-text part. |
| Prompts.AnalysisFilePart | frontend/app/api/analyze/route.ts:359-383 | A document file becomes inline data exactly when it is not `text/plain`, carrying its own type and bytes. A `text/plain` file becomes a text part: the `--- File: name ---` header followed by the file's text. |
| Prompts.AnalysisPrompt | frontend/app/api/analyze/route.ts:320-343 | The preamble first and the criteria last. Between them is the free-text block exactly when the text is non-empty, and nothing otherwise. |
| Prompts.AnalysisPartsLayout | frontend/app/api/analyze/route.ts:345-383 | The analysis request is the prompt, then one part per transcript in order, then one part per file in order, and nothing else. |
| AnalyzeRoute.DetectMultiplePeople | frontend/app/api/analyze/route.ts:212-311 | Detection makes one call and never fails. Any result other than the single-person default comes from a non-blank reply that parsed to it. |
| AnalyzeRoute.DetectionFailsOpen | frontend/app/api/analyze/route.ts:300-310 | A thrown call, a blank reply or an unparsable reply each give the single-person default. |
| AnalyzeRoute.TranscribeAudioFile | frontend/app/api/analyze/route.ts:176-209 | One transcription call. It succeeds exactly when the call is answered, and the transcript is then the file name with the trimmed reply text. A thrown call fails with the message naming the file. |
| AnalyzeRoute.TranscribeAll | frontend/app/api/analyze/route.ts:348-353 | The audio files are sent one at a time, in upload order. Success exactly when every request is answered: then there is one request per file and the transcripts are the answers' trimmed texts under the files' names, in order. Otherwise the loop stops at the first unanswered file: every earlier file was answered, no later file is sent, and the error names that file. |
| AnalyzeRoute.InterpretAnalysis | frontend/app/api/analyze/route.ts:394-404 | The reply is accepted exactly when it is non-blank and parses, and the result is what it parses to. Every failure is the fixed analysis error. |
| AnalyzeRoute.AnalyzeCaseDocuments | frontend/app/api/analyze/route.ts:314-405 | At most one analysis request and no save. When every transcription is answered, the effects are the transcription requests in order, then one analysis request. That request is built from the free text, the transcripts those answers give and the document files, and its reply alone decides the result. When some transcription is unanswered, it fails with no analysis request. Every failure is the fixed analysis error. |
| AnalyzeRoute.SelectFiles | frontend/app/api/analyze/route.ts:488 | A person's files are taken from the document list only. When every index is in range, the result is the indexed files in index order, repeats included. |
| AnalyzeRoute.SelectFilesAppend | frontend/app/api/analyze/route.ts:488 | Selection works index by index, so order is kept. |
| AnalyzeRoute.SelectFilesIgnoresMissing | frontend/app/api/analyze/route.ts:488 | An index with no file is dropped. The rest are selected as if it were absent. |
| AnalyzeRoute.AnalyzePerson | frontend/app/api/analyze/route.ts:484-494 | One analysis request with no free text, no audio and the person's selected files, and no call after it. A save exactly on success, under the detected name. A failure is one of the two fixed errors. |
| AnalyzeRoute.PersonRuns | frontend/app/api/analyze/route.ts:482-495 | One run per detected person, in detection order: run i is person i's analysis with their selected files. |
| AnalyzeRoute.RunBulk | frontend/app/api/analyze/route.ts:482-495 | The people are run one at a time, in detection order. Success exactly when no person's run fails: then every person's saved record comes back in order, under their name, with one save each. Otherwise the error is that of the first person whose run failed. The effects are those of the people up to and including that one, and one record was saved per earlier person. No audio is ever transcribed. |
| AnalyzeRoute.BulkRequestsInOrder | frontend/app/api/analyze/route.ts:484-495 | The calls of a bulk run are the analysis requests of the people it reached: one per person, in detection order, and none after the first failure. |
| Gateway.FirstFailed | frontend/app/api/analyze/route.ts:484-495 | The position of the first failed step, or the number of steps: every earlier step succeeded, and the step there failed. |
| Gateway.RunUntilFailure | frontend/app/api/analyze/route.ts:484-495 | A loop that stops at the first failed step. Success exactly when no step fails, with every step's value in order; otherwise the first failed step's error. Its effects are those of the steps performed, up to and including the failed one, in order. |
| Gateway.SavesUntilFailure | frontend/app/api/analyze/route.ts:484-495 | When each step saves once on success and never on failure, the loop saves once per step before the first failure. |
| Gateway.CallsSequenced | frontend/app/api/analyze/route.ts:484-495 | The calls of steps that each make one call, first, are those calls in step order. |
| AnalyzeRoute.CaseNameFor | frontend/app/api/analyze/route.ts:514 | A non-empty person name is the case name; otherwise `Unknown Case`. |
| AnalyzeRoute.Post | frontend/app/api/analyze/route.ts:460-536 | An empty submission is the 400 and makes no call. Otherwise detection comes first, and it decides the rest. After a multi-person detection the answer is the bulk response exactly when the bulk loop succeeds, and otherwise a 500 carrying the loop's error. After any other detection it is the single response exactly when the single case is saved, and otherwise a 500 carrying its error. Every 500 carries one of two fixed messages. A bulk `count` is the number of records saved, and a single response saved exactly one. |
| AnalyzeRoute.DetectThenAnalyze | frontend/app/api/analyze/route.ts:475-524 | The detection call comes first. The response shapes and counts are as for `Post`. |
| AnalyzeRoute.AfterDetection | frontend/app/api/analyze/route.ts:478-524 | The bulk loop after a multi-person detection and the single case otherwise, each answered as `Post` describes. A bulk response only after a multi-person detection, a single response only otherwise. |
| AnalyzeRoute.BulkBranch | frontend/app/api/analyze/route.ts:478-507 | The bulk response exactly when the loop succeeds. It lists one saved analysis per person, under their names, and its count is the number saved. Otherwise a 500 carrying the loop's error. |
| AnalyzeRoute.SingleBranch | frontend/app/api/analyze/route.ts:508-523 | The single response exactly when the single case is saved, carrying the saved record; a single response saved exactly one record. Otherwise a 500 carrying the case's error. |
| AnalyzeRoute.SingleCase | frontend/app/api/analyze/route.ts:508-516 | Everything submitted is analysed. A failed analysis saves nothing and is the analysis error. After a successful one the reply is saved under its person name or `Unknown Case`, and the case succeeds exactly when that save does, with the saved record. |
| AnalyzeRoute.BulkIffSeveralPeople | frontend/app/api/analyze/route.ts:478-507 | A bulk response exactly after a multi-person detection, with one record per detected person, in order and under their names. |
| AnalyzeRoute.BulkSendsOnlyDocumentFiles | frontend/app/api/analyze/route.ts:484-491 | A bulk request transcribes nothing. After detection, its calls are the analysis requests of the people it reached, in order, each holding only that person's document files. |
| AnalyzeRoute.SinglePathUsesEverything | frontend/app/api/analyze/route.ts:508-510 | After a single-person detection, the request is analysed as one case with everything submitted. |
| AnalyzeSingleRoute.DocumentsPart | frontend/app/api/analyze-single/route.ts:185-188 | The free-text part is present exactly when the trimmed text is non-empty. |
| AnalyzeSingleRoute.SingleParts | frontend/app/api/analyze-single/route.ts:183-211 | The instruction, then the free-text part, then one placeholder per audio file, then one part per document file, in order. |
| AnalyzeSingleRoute.DocumentsPartIffNotBlank | frontend/app/api/analyze-single/route.ts:185-188 | The second part is the free text exactly when that text is not blank. |
| AnalyzeSingleRoute.ParseOrEmpty | frontend/app/api/analyze-single/route.ts:222 | A blank reply reads as the empty analysis instead of failing. |
| AnalyzeSingleRoute.Post | frontend/app/api/analyze-single/route.ts:171-242 | Exactly one analysis request and no transcription. Every failure is the fixed 500. Success exactly when the call is answered, its reply parses (a blank reply as the empty object) and the save under the reply's person name or `Unknown Case` succeeds. The response is then that saved record. |
| AnalyzeSingleRoute.SaveReply | frontend/app/api/analyze-single/route.ts:222-234 | After the request, the parent row is inserted under the chosen name. The response is a success exactly when the save completed, and it is then the saved record. |
| AnalyzeSingleRoute.BlankReplyLeavesPlaceholderRow | frontend/app/api/analyze-single/route.ts:126-228 | A blank reply inserts an `Unknown Case` parent row with no children, and the request still fails. |
| Persistence.Save | frontend/app/api/analyze/route.ts:408-458 | The parent row is inserted first, with the case name and the reply's scalars. The save fails with no child insert exactly when that insert fails or a collection is missing. Otherwise all six collections are inserted, tagged with the new id. |
| Persistence.SavedRowsReadBack | frontend/app/api/analyze/route.ts:411-451 | The rows a successful save writes read back as the analysis that was saved. |
| Persistence.MissingCollectionLeavesParent | frontend/app/api/analyze-single/route.ts:126-166 | A reply lacking a collection leaves the parent row written and fails the save. |
| Rows.ChildRowsOf | frontend/app/api/analyze/route.ts:432-451 | The child rows exist exactly when every collection is present. Each collection becomes one row per element, in order, carrying the parent id. |
| Rows.SaveReadBackRoundTrip | frontend/app/api/analyze/route.ts:411-451 | Mapping an analysis to rows and reading them back gives the same analysis. |
| Citations.FindAll | backend/services/agent.py:190-192 | Every match's file name is non-empty and free of `,` and `]`, and its location is free of `]`. Which matches are found is stated by `FindAllSound`, `FindAllOrdered` and `FindAllComplete`. |
| Citations.NoBracketNoMatches | backend/services/agent.py:190-192 | Text without `[` has no matches. |
| Citations.FindAllSound | backend/services/agent.py:190-192 | Every match found is the pattern's match at its own `[`, at or after the start position. |
| Citations.FindAllOrdered | backend/services/agent.py:190-192 | Matches are found left to right and never overlap: each ends before the next one opens. |
| Citations.FindAllComplete | backend/services/agent.py:190-192 | A match of the pattern at any position is found, unless that position lies inside a match found earlier. |
| Citations.ExtractCitations | backend/services/agent.py:186-208 | The citations are distinct. They are exactly the stripped pairs of the matches `FindAll` finds, and each is clean. |
| Citations.CitationsInFirstAppearanceOrder | backend/services/agent.py:199-206 | The citations are listed in the order of their first appearance. |
| Citations.NoBracketNoCitations | backend/services/agent.py:190-192 | An answer without `[` cites nothing. |
| Citations.RetrieveDocuments | backend/services/agent.py:47-63 | A failing search, including an uninitialised store, gives the error text. Otherwise the result is the formatted blocks of the documents found, joined by the separator. |
| Citations.FormatDocument | backend/services/agent.py:55-58 | The tag `[source, location]` on the first line, with `Unknown` for a missing source and nothing for a missing location. Then the document's content, unchanged. |
| Citations.FormatBlocks | backend/services/agent.py:53-60 | Empty exactly when there are no documents. Otherwise each document's block sits at its offset, in order, with the separator between consecutive blocks and nothing after the last. |
| Citations.RetrievedDocumentCitedBack | backend/services/agent.py:53-60 | A retrieved document with a clean source and location is cited back as that source and location. |
| Citations.TagsRoundTrip | backend/services/agent.py:53-60 | A text made of clean `[file, location]` tags, followed by text without `[`, cites back exactly those pairs, repeats dropped, in order. |
| Citations.TwoTagsCitedBoth | backend/services/agent.py:186-208 | Two clean tags in a row are cited as two citations in order, or as one when they are equal. |
| DocumentProcessor.NumberedPages | backend/services/document_processor.py:48 | Every page is paired with its number, counting from 1. |
| DocumentProcessor.PdfPages | backend/services/document_processor.py:48-51 | Exactly the non-blank pages are kept, each with its own number and unstripped text. |
| DocumentProcessor.PagesInOrder | backend/services/document_processor.py:48-51 | Kept pages stay in strictly increasing page order. |
| DocumentProcessor.NumberedParagraphs | backend/services/document_processor.py:75 | Every paragraph is paired with its number, counting from 1. |
| DocumentProcessor.DocxParagraphs | backend/services/document_processor.py:75-78 | Exactly the paragraphs that are non-empty once stripped are kept, stripped and with their own number. |
| DocumentProcessor.ParagraphsInOrder | backend/services/document_processor.py:75-78 | Kept paragraphs stay in strictly increasing order. |
| DocumentProcessor.ExtractorFor | backend/services/document_processor.py:102-110 | `.pdf` selects the PDF reader and `.docx` or `.doc` the DOCX reader. Any other lowercased suffix is the unsupported-type error. |
| DocumentProcessor.LocationOf | backend/services/document_processor.py:126-130 | `p.N` for page N and `para.N` for paragraph N. The second character tells the kinds apart. |
| DocumentProcessor.LocationOfInjective | backend/services/document_processor.py:126-130 | Two pages or paragraphs share a location only when they are of one kind and have one number. |
| DocumentProcessor.ChunkIdInjective | backend/services/document_processor.py:124 | Different counters give different chunk ids. |
| DocumentProcessor.NumberedIdsDistinct | backend/services/document_processor.py:114-124 | Consecutively numbered chunks have pairwise different ids. |
| DocumentProcessor.Number | backend/services/document_processor.py:113-141 | One chunk per piece, in order, each with its text, location, source, client and consecutive id. |
| DocumentProcessor.ChunksOf | backend/services/document_processor.py:113-141 | The pieces numbered from 1 as chunks with ids `{source}_{n}` that never repeat. |
| DocumentProcessor.ProcessDocument | backend/services/document_processor.py:87-144 | Fails exactly for an unsupported file, naming its suffix. Otherwise the chunks are numbered from 1, each with the source and client, ids `{source}_1..n`. That they are the split pieces of the kept pages or paragraphs, in document order, is stated by `ChunksInDocumentOrder`, `PdfChunksComeFromKeptPages` and `DocxChunksComeFromKeptParagraphs`. |
| DocumentProcessor.PdfChunksComeFromKeptPages | backend/services/document_processor.py:116-141 | Every PDF chunk is located at `p.N` for a non-blank page N, and its text is a piece of that page. |
| DocumentProcessor.DocxChunksComeFromKeptParagraphs | backend/services/document_processor.py:116-141 | Every DOCX chunk is located at `para.N` for a non-empty paragraph N, and its text is a piece of that stripped paragraph. |
| DocumentProcessor.Origins | backend/services/document_processor.py:116-122 | Which kept page or paragraph each piece comes from: always one that exists, and never decreasing along the pieces. |
| DocumentProcessor.OriginsSound | backend/services/document_processor.py:116-130 | Each piece is a split piece of the page or paragraph it comes from, and carries that one's location. |
| DocumentProcessor.PiecesInDocumentOrder | backend/services/document_processor.py:116-122 | When the pages or paragraphs come in increasing order, the pieces' origins never go back. |
| DocumentProcessor.ChunksInDocumentOrder | backend/services/document_processor.py:113-141 | Every chunk of a supported file is a split piece of a kept page or paragraph and carries its location. Page or paragraph numbers never decrease from one chunk to the next. |
| DocumentProcessor.PiecesAppend | backend/services/document_processor.py:116-122 | Splitting works page by page, in page order. |
| DocumentProcessor.SinglePageDocument | backend/services/document_processor.py:87-144 | A one-page PDF that the splitter keeps whole becomes one chunk, `{source}_1` at `p.1`. |
| VectorStore.DocumentOf | backend/services/neo4j_store.py:88-97 | A chunk's document has the chunk's text, source, location and id, and the client given to the call. |
| VectorStore.AddDocumentsForClient | backend/services/neo4j_store.py:71-108 | An uninitialised store refuses. Otherwise document i is `DocumentOf` chunk i under the caller's client, and the add fails exactly when the index fails, with the index's error. |
| VectorStore.PyPrefix | backend/services/neo4j_store.py:143 | Python's `[:k]`: a prefix of length min(k, n), where a negative k counts from the end. |
| VectorStore.SearchByClient | backend/services/neo4j_store.py:110-147 | An uninitialised store refuses, and an index failure is passed on. Otherwise at most k results, all of the client. They are a prefix of that client's candidates among the 2k retrieved. |
| VectorStore.SearchTakesAllItCan | backend/services/neo4j_store.py:133-143 | The search returns exactly the first min(k, n) of the client's n candidates. |
| VectorStore.EveryCandidateReturned | backend/services/neo4j_store.py:133-143 | When the client has at most k candidates, every one of them is returned. |
| VectorStore.OtherClientsExcluded | backend/services/neo4j_store.py:136-140 | No document of another client is ever returned. |
| VectorStore.AddedDocumentFound | backend/services/neo4j_store.py:86-143 | A document added for a client, and ranked among few enough of that client's candidates, is found by a search for that client. |
| Helpers.PathName | backend/utils/helpers.py:27 | The last `/`-separated component that is neither empty nor `.`; empty exactly when there is none. So it is free of `/`, never `.`, and the name itself when it has no `/`. |
| Helpers.PathNameOfPath | backend/utils/helpers.py:27 | A name without `/` that is neither empty nor `.` is the final component of any directory joined with it. |
| Helpers.Suffix | backend/utils/helpers.py:15 | From the last dot to the end, when that dot is neither first nor last; otherwise empty. |
| Helpers.ValidateMeansSupportedEnding | backend/utils/helpers.py:12-16 | A file is accepted exactly when its final component ends, in any letter case, in `.pdf`, `.docx` or `.doc` after at least one character. |
| Helpers.UpperCaseExtensionAccepted | backend/utils/helpers.py:15 | `X.PDF` is accepted. |
| Helpers.SanitizeFilename | backend/utils/helpers.py:24-30 | The final component with every space replaced by `_`: no spaces, no `/`, same length. |
| Helpers.SanitizeIdempotent | backend/utils/helpers.py:24-30 | Sanitising twice is sanitising once. |
| Helpers.SanitizeKeepsValidity | backend/utils/helpers.py:12-30 | Sanitising neither admits nor rejects a file. |
| Config.FromEnv | backend/config.py:20-26 | Each Supabase setting is the environment's value when the variable is set, and empty when it is not. |
| Config.MissingNames | backend/config.py:43-48 | Exactly the names of the settings whose value is empty, in declaration order: the unset settings filtered from the list, then mapped to their names. The list is empty exactly when every value is set. |
| Config.Validate | backend/config.py:40-52 | Validation passes exactly when both settings are set. Otherwise the message lists the missing names, joined by `, `. |
| Config.ValidateMessages | backend/config.py:43-52 | The exact message for each combination of empty settings, names in declaration order. |
| Config.UnsetEnvironmentFails | backend/config.py:20-52 | With neither setting in the environment, validation fails, naming both. |
| Config.EnvironmentValidIff | backend/config.py:20-52 | The loaded settings validate exactly when the environment sets both variables to non-empty values. |

## Left out

- **External services.** The language model, Supabase, Prisma, Neo4j, the embeddings and the agent chains are function-valued parameters, and the model assumes they are deterministic. Their behaviour and latency are not modelled.
- **Readers and splitter.** The PDF and DOCX readers and the text splitter are parameters. Their exceptions are not modelled.
- **File I/O and encoding.** Base64 and `arrayBuffer` encoding, temporary files in `process_file_bytes`, and file and browser-storage I/O are left out. Browser storage is a slot that is missing, unparseable or a parsed record list.
- **Clocks and random ids.** `Date.now`, `Math.random`, `uuid4` and date parsing are not modelled. Times are integers in milliseconds, and the random id suffix is a parameter.
- **JSON shapes.** Coercing a reply into a detection or an analysis is done by the parse parameters. Only the transcription entries are checked field by field, on a small JSON datatype.
- **Generation config.** The model name, `responseMimeType` and `responseSchema` of each request are not modelled. A request is its call kind and its parts. The two detection schemas differ only in the wording of the `people` description: the analyze route adds "(empty if only one person)". So the two detection calls are distinct call kinds, and the service may answer them differently.
- **Legacy storage keys.** The dashboard's mount effect also removes `evidex_new_records` and `evidex_seen_records`. No modelled code reads those keys.
- **Prompt wording.** The instruction texts are short labelled stand-in constants, such as `[analysis preamble]`. Only their placement in the request is modelled, not their wording.
- **Whitespace.** `Strings.Trim` treats only ASCII space and the characters 9 to 13 as whitespace. JavaScript `trim`, Python `strip` and the regex `\s` also strip other Unicode spaces.
- TranscribePage.SingleRenameReplacesEveryLabel: replaces labels literally. The source builds a regular expression from the label, so the property is stated only for labels without regex metacharacters. The source also passes `${custom}:` to `String.prototype.replace` as a replacement pattern, where `$&`, `$1`, `$$` and similar sequences are expanded. The model inserts the custom name verbatim, so the property holds only for names without `$`.
- Dashboard.KeyOf: lowercases ASCII letters only. JavaScript `toLowerCase` also lowers other Unicode letters, so names that differ only in the case of a non-ASCII letter may sort differently in the source. Also, `Dashboard.LexLess` compares Unicode code points, while JavaScript `<` compares UTF-16 code units. The two orders disagree only between characters above U+FFFF and characters in U+E000 to U+FFFF.
- Helpers.FileExtension: lowercases ASCII letters only, where Python `str.lower()` lowers every Unicode letter. The allowed suffixes are ASCII. A suffix with a non-ASCII upper-case letter is reported in the unsupported-type message with that letter unlowered.
- AnalyzeRoute.Post: the parse parameters return a complete detection or analysis, or nothing. In the source, `JSON.parse` can return JSON of another shape. A detection without a `people` array, or an analysis reply of `null`, makes `route.ts` throw a `TypeError` at lines 478 or 514, outside the inner catches. The answer is then a 500 reading `Failed to analyze documents: ` followed by the TypeError's message. The model's 500 responses carry only the two fixed messages.
- Rows.SaveReadBackRoundTrip: reads each child collection back in insertion order. The source's read path (`frontend/app/api/analyses/[id]/route.ts`, `include` with no `orderBy`) leaves the order of child rows to the database. The round trip is therefore promised for the rows' contents and count, and for their order only when the database returns them as inserted.
- **Name table order.** The transcribe page's name table is an association list in insertion order, standing in for JavaScript object key order. JavaScript `Object.entries` lists integer-like keys (a speaker named `1`, say) first, in ascending numeric order, before the other keys in insertion order. The association list keeps insertion order for every key.
- Dashboard.SortedAnalyses: proves a sorted permutation but not stability. The model sorts by insertion, while `Array.prototype.sort` only promises stability.
- **Tag parsing.** The expiry cleanup receives the stored tags already parsed. A `JSON.parse` exception on a corrupt value is not modelled.
- **Storage exceptions.** Exceptions thrown by browser storage, and the server-side copy of saved analyses, are not modelled.
- **`pathlib` flavour.** `pathlib` is modelled with POSIX semantics only. Windows drive and backslash handling is not.
- **Missing metadata.** Document metadata keys are options, so a `None` value and a missing key are not distinguished.
- **Unmodelled backend operations.** `delete_client_documents`, vector-index creation and the FastAPI endpoints are not modelled.
- **Float details.** The risk-score gauge's floating-point stroke offset and the confidence-percentage rounding are not modelled.
- **Type declarations.** The record and enum types of `frontend/types/index.ts` are datatypes in `CaseTypes`. They declare shapes only, so they carry no contract.
- **Presentation-only files.** The landing and analyze pages, layout, styling, the loader and the read-only display components are not modelled. Nor are the listing and upload routes, the Supabase client and the summarisation service: they only forward data.
