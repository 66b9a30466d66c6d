# Cognitive Digital Library: a Dafny model of search, document endpoints, front-end forms and maintenance scripts

The Cognitive Digital Library MVP stores documents (title, content, authors, tags, an
upload date and an embedding of the content) in a document store. It finds them by
semantic similarity to a query. This project models the parts of the repository with
decisions in them, as pure functions over immutable data:

- **Search** (`backend/test_search.py`). An empty store ends the run. Otherwise the
  native vector engine is asked first, and any row it returns is the answer. When it
  fails or returns nothing, a case-insensitive substring match over title, content,
  tags and authors selects at most ten candidates. Each candidate is scored by its
  embedding against the query's: `clamp((dot + 1) / 2)`, or 0.5 when the embedding is
  missing, empty or of another length. The candidates are stably sorted by descending
  score and the first five are shown (modules `Search` and `Ranking`).
- **Document endpoints** (`backend/api/documents.py`). Upload checks the file's
  extension as `os.path.splitext` computes it, case-insensitively, against
  `.pdf .docx .txt .doc`. It refuses failed extraction (500) and content shorter than 10
  characters once trimmed (400). It parses the comma lists and embeds the first 5000
  characters. The listing's tag filter is modelled, and so are the 400/404 guards of
  get, update and delete by id and the field rules of update, which re-embeds new
  content (module `DocumentsApi`).
- **Front end**. The document panel (`DocumentManagement.jsx`) covers text
  truncation, the edit form's join and re-parse of the lists, and the list updates
  after a save or a delete. The upload form (`DocumentUpload.jsx`) covers the MIME
  type and 10 MiB checks, the title filled in from the file name with its extension
  stripped, and the submit guards, body and reset (modules `DocumentManagement` and
  `DocumentUpload`).
- **Maintenance scripts** (`backend/migrate_schema.py`, `backend/fix_upload_dates.py`).
  A schema-free record model covers the store's `$exists`/`null` filters and its
  `$rename`/`$set` updates. The migration's early exit, two renames and four defaults
  are modelled, and so is the upload-date repair (modules `RawRecords`,
  `MigrateSchema` and `FixUploadDates`).

Shared pieces sit in `Common` (`Option`, `Take`) and `Text`, which holds the string
functions:

- whitespace trimming (Python's `strip`, JavaScript's `trim`);
- `split` and `join`;
- the comma-list parse `[x.strip() for x in s.split(",") if x.strip()]`;
- ASCII lower-casing and substring search.

`Records` defines the document entity.

Everything outside the program's own logic is a parameter of the functions that use
it:

- the embedding model (`embed: string -> Vector`);
- the native vector engine (`engine: VectorQuery -> VectorOutcome`);
- `ObjectId` parsing (`parseId: string -> Option<Id>`);
- text extraction (`Extraction`);
- the clock (`now`);
- the server's answers to the front end (`Reply`, `UploadReply`);
- the user's confirmation (`confirmed`).

## Model

| member | source | states |
|---|---|---|
| Common.Take | cdl-mmkg-mvp/backend/test_search.py:137 | `s[:n]` has length `min(n, |s|)`, is a prefix of `s` and is `s` itself when `s` is short enough |
| Text.Trim | cdl-mmkg-mvp/backend/api/documents.py:111 | `strip()` yields a text with no blank at either end, no longer than the input |
| Text.TrimIsInfix | cdl-mmkg-mvp/backend/api/documents.py:111 | the trimmed text is a contiguous piece of the input with only blanks before and after it |
| Text.TrimUnique | cdl-mmkg-mvp/backend/api/documents.py:111 | any infix that has no blank at either end and only blanks around it is the trimmed text |
| Text.TrimIdempotent | cdl-mmkg-mvp/frontend/src/components/DocumentUpload.jsx:99 | trimming a trimmed text changes nothing |
| Text.TrimEmptyIffAllSpace | cdl-mmkg-mvp/frontend/src/components/DocumentUpload.jsx:89 | `title.trim()` is empty exactly when the title consists of blanks only |
| Text.TrimSpaceBefore | cdl-mmkg-mvp/frontend/src/components/DocumentUpload.jsx:99-101 | a blank added in front of a text does not change its trimmed form |
| Text.TrimSpaceAfter | cdl-mmkg-mvp/frontend/src/components/DocumentUpload.jsx:99-101 | a blank added after a text does not change its trimmed form |
| Text.TrimKeepsOut | cdl-mmkg-mvp/backend/api/documents.py:153 | trimming never introduces a character that the text did not hold |
| Text.Split | cdl-mmkg-mvp/backend/api/documents.py:153 | `split(",")` yields one piece more than there are separators, no piece holds the separator, and joining the pieces with it gives back the text |
| Text.SplitJoin | cdl-mmkg-mvp/backend/api/documents.py:153 | pieces free of the separator, joined with it and split again, come back unchanged |
| Text.SplitNoSeparator | cdl-mmkg-mvp/backend/api/documents.py:153 | a text without the separator splits into itself alone |
| Text.SplitConcat | cdl-mmkg-mvp/backend/api/documents.py:153 | splitting `a + "," + b` gives the pieces of `a` followed by the pieces of `b` |
| Text.ParseList | cdl-mmkg-mvp/backend/api/documents.py:116-117 | the comma-list parse yields only non-empty, trimmed, comma-free items, at most one per comma-separated piece, and none for the empty text |
| Text.CleanConcat | cdl-mmkg-mvp/backend/api/documents.py:116-117 | dropping the blank pieces distributes over concatenation |
| Text.ParseListConcat | cdl-mmkg-mvp/backend/api/documents.py:116-117 | parsing `a + "," + b` gives the items of `a` followed by the items of `b` |
| Text.ParseListItem | cdl-mmkg-mvp/backend/api/documents.py:116-117 | a single well-formed item parses to exactly itself |
| Text.ParseListSpaceBefore | cdl-mmkg-mvp/frontend/src/components/DocumentUpload.jsx:100-101 | a blank in front of the list text does not change its parse |
| Text.ParseListSpaceAfter | cdl-mmkg-mvp/frontend/src/components/DocumentUpload.jsx:100-101 | a blank after the list text does not change its parse |
| Text.ParseListSpacesAround | cdl-mmkg-mvp/frontend/src/components/DocumentUpload.jsx:100-101 | blanks around the whole list do not change its parse |
| Text.ParseListTrim | cdl-mmkg-mvp/frontend/src/components/DocumentUpload.jsx:100-101 | trimming the raw list text before sending it does not change the back end's parse |
| Text.ParseListJoin | cdl-mmkg-mvp/frontend/src/components/DocumentManagement.jsx:47-63 | joining well-formed items with ", " and parsing them again restores exactly the items |
| Text.Lower | cdl-mmkg-mvp/backend/api/documents.py:82 | lower-casing keeps the length and maps every character through the ASCII case fold |
| Text.IsInfix | cdl-mmkg-mvp/backend/test_search.py:94-97 | the search returns true exactly when the needle occurs at some position of the text |
| Text.SearchFrom | cdl-mmkg-mvp/backend/test_search.py:94-97 | the scan returns true exactly when the needle occurs at or after the start position |
| Records.IndexOfId | cdl-mmkg-mvp/backend/api/documents.py:186 | returns the first position holding the id, or -1 exactly when no document has it |
| Records.FindById | cdl-mmkg-mvp/backend/api/documents.py:186-191 | `find_one` by id returns a stored document with that id, and nothing exactly when none has it |
| Ranking.Insert | cdl-mmkg-mvp/backend/test_search.py:134 | inserting adds exactly one entry, keeps the multiset and keeps a sorted sequence sorted |
| Ranking.SortDesc | cdl-mmkg-mvp/backend/test_search.py:134 | the result is a permutation of the input, sorted by descending score |
| Ranking.InsertWithScore | cdl-mmkg-mvp/backend/test_search.py:134 | inserting places the new entry ahead of the entries it ties with |
| Ranking.SortDescStable | cdl-mmkg-mvp/backend/test_search.py:134 | for every score, the entries with that score keep their input order (stability) |
| Ranking.SortDescOfSorted | cdl-mmkg-mvp/backend/test_search.py:134 | sorting an already sorted sequence changes nothing |
| Ranking.SortedSameTiesEqual | cdl-mmkg-mvp/backend/test_search.py:134 | two sorted sequences that agree on the entries of every score are equal |
| Ranking.SortDescUnique | cdl-mmkg-mvp/backend/test_search.py:134 | every stable descending sort of the input is this one |
| Search.Clamp01 | cdl-mmkg-mvp/backend/test_search.py:124 | `max(0, min(1, x))` lies in [0, 1], is `x` inside it and saturates outside it |
| Search.Similarity | cdl-mmkg-mvp/backend/test_search.py:117-126 | every score lies in [0, 1], and a candidate whose embedding is missing, empty or of another length gets the neutral 0.5 |
| Search.DotSymmetric | cdl-mmkg-mvp/backend/test_search.py:123 | the dot product does not depend on the order of its operands |
| Search.SimilaritySymmetric | cdl-mmkg-mvp/backend/test_search.py:122-124 | two vectors of the same non-zero length score each other alike, whichever is the query |
| Search.SimilarityMonotone | cdl-mmkg-mvp/backend/test_search.py:122-124 | between comparable candidates, a larger dot product never gives a smaller score |
| Search.SimilaritySaturates | cdl-mmkg-mvp/backend/test_search.py:124 | the score is 1 exactly when the dot product is at least 1, and 0 exactly when it is at most -1 |
| Search.SimilarityToSelf | cdl-mmkg-mvp/backend/test_search.py:122-124 | a candidate whose embedding equals the query's scores at least 0.5 |
| Search.Matching | cdl-mmkg-mvp/backend/test_search.py:91-99 | the `$or` query selects exactly the stored documents matching in title, content, a tag or an author |
| Search.MatchingConcat | cdl-mmkg-mvp/backend/test_search.py:91-99 | the selection keeps store order |
| Search.LexicalCandidates | cdl-mmkg-mvp/backend/test_search.py:91-110 | `limit(10)` keeps the first ten matches in store order, and all of them when there are at most ten |
| Search.ScoreCandidates | cdl-mmkg-mvp/backend/test_search.py:116-132 | each candidate is paired with its similarity to the query, in candidate order |
| Search.SortDescRanks | cdl-mmkg-mvp/backend/test_search.py:134 | the ranking is a sorted permutation of the scored candidates that keeps ties in order |
| Search.RunSearch | cdl-mmkg-mvp/backend/test_search.py:32-144 | the run ends at the empty store, at the vector answer, or with no lexical match exactly in the cases the script distinguishes |
| Search.VectorAnswerWins | cdl-mmkg-mvp/backend/test_search.py:71-80 | a non-empty vector answer is the result, capped at ten rows, whatever the store holds |
| Search.LexicalFallback | cdl-mmkg-mvp/backend/test_search.py:110-137 | after the fallback, the ranking is the stable descending sort of the scored candidates; scores lie in [0, 1] and the first five are shown |
| DocumentsApi.SplitExt | cdl-mmkg-mvp/backend/api/documents.py:82 | `splitext` splits the name into root and extension; the extension is empty exactly when the last component has no dot after a non-dot character |
| DocumentsApi.ExtensionAllowedIff | cdl-mmkg-mvp/backend/api/documents.py:81-88 | a file name is accepted exactly when it has an extension that, lower-cased, is one of the four allowed |
| DocumentsApi.UpperCaseAccepted | cdl-mmkg-mvp/backend/api/documents.py:82-84 | "a.PDF" is accepted |
| DocumentsApi.LastExtensionOnly | cdl-mmkg-mvp/backend/api/documents.py:82-84 | "a.pdf.gz" is refused: only the last extension counts |
| DocumentsApi.DotFileRejected | cdl-mmkg-mvp/backend/api/documents.py:82-84 | ".pdf" has no extension and is refused |
| DocumentsApi.ParseNames | cdl-mmkg-mvp/backend/api/documents.py:116-117 | the `if authors else []` guard agrees with the plain comma-list parse |
| DocumentsApi.UploadDocument | cdl-mmkg-mvp/backend/api/documents.py:70-142 | the upload succeeds exactly when the extension is allowed, extraction works and the trimmed text has at least 10 characters; otherwise 400, 500 or 400 as the case is; the stored fields are the form's, the parsed lists, the first 5000 characters embedded and the upload time |
| DocumentsApi.TagFilter | cdl-mmkg-mvp/backend/api/documents.py:152-154 | no filter exactly when the parameter is absent or empty; otherwise one trimmed, comma-free entry per comma-separated piece |
| DocumentsApi.PassesTagFilterIff | cdl-mmkg-mvp/backend/api/documents.py:151-154 | without a filter every document is listed; with one, a document is listed exactly when one of its tags equals some trimmed comma-separated piece of the parameter, and one without tags never is |
| DocumentsApi.FilterByOwnTag | cdl-mmkg-mvp/backend/api/documents.py:152-154 | filtering by one of a document's well-formed tags lists it |
| DocumentsApi.TagFilterCleaned | cdl-mmkg-mvp/backend/api/documents.py:153 | the tag filter differs from the upload parse only by the empty entries it keeps |
| DocumentsApi.GetDocument | cdl-mmkg-mvp/backend/api/documents.py:180-194 | 400 for a malformed id, 404 for an unknown one, and otherwise the stored document with that id |
| DocumentsApi.Provided | cdl-mmkg-mvp/backend/api/documents.py:213 | a field is in the update data exactly when it was sent with a non-null value |
| DocumentsApi.UpdateDocument | cdl-mmkg-mvp/backend/api/documents.py:197-232 | 400, 404 and "No fields to update" as the guards are met; otherwise only the addressed document changes, the sent fields overwrite, the others stay, and the embedding is regenerated from the new content exactly when content was sent; an update of a known id with at least one field succeeds |
| DocumentsApi.ReembedIffContent | cdl-mmkg-mvp/backend/api/documents.py:218-220 | changed content comes with its new embedding, and an update without content keeps both content and embedding |
| DocumentsApi.DeleteDocument | cdl-mmkg-mvp/backend/api/documents.py:235-263 | 400 for a malformed id, 404 for an unknown one, and otherwise a store one document shorter |
| DocumentsApi.DeleteRemovesExactly | cdl-mmkg-mvp/backend/api/documents.py:246-258 | with unique ids, exactly the documents with another id remain, and ids stay unique |
| DocumentManagement.TruncateText | cdl-mmkg-mvp/frontend/src/components/DocumentManagement.jsx:84-87 | a missing text gives "", a short one itself, a long one its first `maxLength` characters and "..." |
| DocumentManagement.CardText | cdl-mmkg-mvp/frontend/src/components/DocumentManagement.jsx:226 | a card shows the whole content up to 200 characters, and otherwise its first 200 characters followed by "..." |
| DocumentManagement.TruncatePrefix | cdl-mmkg-mvp/frontend/src/components/DocumentManagement.jsx:84-87 | the shortened text is a prefix of the text, or a prefix followed by "...", never longer than the limit plus three |
| DocumentManagement.TruncateIdempotent | cdl-mmkg-mvp/frontend/src/components/DocumentManagement.jsx:84-87 | shortening a shortened text changes nothing |
| DocumentManagement.StartEdit | cdl-mmkg-mvp/frontend/src/components/DocumentManagement.jsx:43-51 | the form holds the document's title and content, and its lists joined by ", " |
| DocumentManagement.CancelEdit | cdl-mmkg-mvp/frontend/src/components/DocumentManagement.jsx:53-56 | no document is being edited and no form is kept, and the list is unchanged |
| DocumentManagement.EditPayload | cdl-mmkg-mvp/frontend/src/components/DocumentManagement.jsx:60-65 | the body carries the form's title and content and the comma-list parse of its lists, all items well formed |
| DocumentManagement.EditRoundTrip | cdl-mmkg-mvp/frontend/src/components/DocumentManagement.jsx:43-65 | opening the form and saving it unchanged sends the document's own fields back when its items are well formed |
| DocumentManagement.ReplaceById | cdl-mmkg-mvp/frontend/src/components/DocumentManagement.jsx:68 | every entry with the id becomes the returned document, all others stay in place |
| DocumentManagement.SaveEdit | cdl-mmkg-mvp/frontend/src/components/DocumentManagement.jsx:58-74 | a failed save keeps the state and alerts "Failed to update: " and the message; a successful one replaces the entry and closes the form |
| DocumentManagement.DeleteById | cdl-mmkg-mvp/frontend/src/components/DocumentManagement.jsx:37 | no entry with the deleted id is left, and the list does not grow |
| DocumentManagement.DeleteByIdMembers | cdl-mmkg-mvp/frontend/src/components/DocumentManagement.jsx:37 | exactly the entries with another id remain |
| DocumentManagement.DeleteByIdConcat | cdl-mmkg-mvp/frontend/src/components/DocumentManagement.jsx:37 | the filter keeps order |
| DocumentManagement.DeleteByIdAbsent | cdl-mmkg-mvp/frontend/src/components/DocumentManagement.jsx:37 | deleting an id that is not listed changes nothing |
| DocumentManagement.HandleDelete | cdl-mmkg-mvp/frontend/src/components/DocumentManagement.jsx:30-41 | nothing happens without confirmation; a refused delete alerts "Failed to delete: " and the message; an accepted one filters the list |
| DocumentManagement.SaveAlwaysReembeds | cdl-mmkg-mvp/frontend/src/components/DocumentManagement.jsx:60-67 | an edit from the form always carries fields, so the back end accepts it for a known id and regenerates the embedding |
| DocumentManagement.ReplaceMatchesServer | cdl-mmkg-mvp/frontend/src/components/DocumentManagement.jsx:67-68 | with unique ids, and the entry's id being the `str(_id)` string the back end returned (so it parses back to itself), replacing that entry by the returned document gives the store after the update |
| DocumentManagement.DeleteByIdUnique | cdl-mmkg-mvp/frontend/src/components/DocumentManagement.jsx:37 | with unique ids, filtering out the id of one entry removes exactly that entry |
| DocumentManagement.DeleteMatchesServer | cdl-mmkg-mvp/frontend/src/components/DocumentManagement.jsx:36-37 | with unique ids, and the deleted id being the `str(_id)` string the back end returned (so it parses back to itself), filtering it out of the list gives the store after the deletion |
| DocumentManagement.UploadedEditRoundTrip | cdl-mmkg-mvp/frontend/src/components/DocumentManagement.jsx:47-48 | an uploaded document survives an unchanged edit |
| DocumentUpload.StripExtension | cdl-mmkg-mvp/frontend/src/components/DocumentUpload.jsx:54 | the result is a prefix of the name; it is shorter exactly when `\.[^/.]+$` matches, and then the pattern matches where it ends |
| DocumentUpload.StripAddedExtension | cdl-mmkg-mvp/frontend/src/components/DocumentUpload.jsx:54 | a stem, a dot and an extension without dot or slash lose exactly the dot and the extension |
| DocumentUpload.StripExamples | cdl-mmkg-mvp/frontend/src/components/DocumentUpload.jsx:54 | "a.tar.gz" becomes "a.tar"; "noext" and "a." are unchanged |
| DocumentUpload.ValidateAndSetFile | cdl-mmkg-mvp/frontend/src/components/DocumentUpload.jsx:29-57 | a wrong type or an oversized file is refused with its message and no file is kept; an accepted file clears the error and fills an empty title from the stripped name |
| DocumentUpload.ValidateKeepsIff | cdl-mmkg-mvp/frontend/src/components/DocumentUpload.jsx:37-50 | the file is kept, and the error cleared, exactly when both checks pass |
| DocumentUpload.SizeBoundary | cdl-mmkg-mvp/frontend/src/components/DocumentUpload.jsx:43-47 | a file of exactly 10 MiB is accepted and one byte more is refused |
| DocumentUpload.MimeAcceptedExtensionRefused | cdl-mmkg-mvp/frontend/src/components/DocumentUpload.jsx:30-41 | a text file named "notes" passes the front end's check and fails the back end's |
| DocumentUpload.HandleSubmit | cdl-mmkg-mvp/frontend/src/components/DocumentUpload.jsx:79-126 | nothing is sent exactly when there is no file or the trimmed title is empty, each with its message; the body holds the trimmed fields; success resets the form, failure keeps it and shows a non-empty error |
| DocumentUpload.SentAsParsed | cdl-mmkg-mvp/frontend/src/components/DocumentUpload.jsx:99-101 | the title sent is non-empty and trimmed, and the back end parses the sent lists as it would the raw ones |
| DocumentUpload.ChooseThenSubmit | cdl-mmkg-mvp/frontend/src/components/DocumentUpload.jsx:49-107 | choosing an accepted file and submitting successfully sends it under the stripped name and ends in the initial form with the success flag |
| RawRecords.Apply | cdl-mmkg-mvp/backend/migrate_schema.py:36-46 | `$set` writes the field; `$rename` moves a present value to the new name, does nothing when the field is absent, and leaves every other field alone |
| RawRecords.UpdateMany | cdl-mmkg-mvp/backend/migrate_schema.py:36-72 | every matching record is updated in place and the others are untouched |
| RawRecords.CountZeroIff | cdl-mmkg-mvp/backend/migrate_schema.py:25-30 | the count is zero exactly when no record matches |
| MigrateSchema.RenamePass | cdl-mmkg-mvp/backend/migrate_schema.py:36-46 | each rename pass transforms each record on its own |
| MigrateSchema.DefaultPass | cdl-mmkg-mvp/backend/migrate_schema.py:50-72 | each default pass transforms each record on its own |
| MigrateSchema.MovedFacts | cdl-mmkg-mvp/backend/migrate_schema.py:36-39 | after a rename the old name is gone, its value is under the new name, and other fields are kept |
| MigrateSchema.DefaultedFacts | cdl-mmkg-mvp/backend/migrate_schema.py:50-53 | after a default the field is present, with its old value when it had one, and other fields are kept |
| MigrateSchema.MigrateDocuments | cdl-mmkg-mvp/backend/migrate_schema.py:25-72 | the collection keeps its size, and nothing at all changes when no record has `text` |
| MigrateSchema.MigrateRecordRenames | cdl-mmkg-mvp/backend/migrate_schema.py:36-46 | `text` and `abstract_embedding` are gone, their values under `content` and `content_embedding`; an absent old field leaves the new one as it was |
| MigrateSchema.MigrateRecordDefaults | cdl-mmkg-mvp/backend/migrate_schema.py:50-72 | a missing title, author list, tag list or upload date gets "Untitled Document", [], [] or null; a present one keeps its value |
| MigrateSchema.MigrateRecordKeepsOthers | cdl-mmkg-mvp/backend/migrate_schema.py:36-72 | fields the migration does not name are left alone |
| MigrateSchema.MigrationIsPerRecord | cdl-mmkg-mvp/backend/migrate_schema.py:36-72 | when it runs, the migration transforms every record on its own, in place |
| MigrateSchema.NoTextAfterMigration | cdl-mmkg-mvp/backend/migrate_schema.py:76-83 | afterwards no record has the old `text` field, as the verification step expects |
| MigrateSchema.MigrationIdempotent | cdl-mmkg-mvp/backend/migrate_schema.py:25-30 | a second run finds nothing to migrate and changes nothing |
| MigrateSchema.EarlyExitSkipsDefaults | cdl-mmkg-mvp/backend/migrate_schema.py:28-30 | without any `text` field even the defaults are skipped |
| FixUploadDates.FixUploadDates | cdl-mmkg-mvp/backend/fix_upload_dates.py:26-40 | every record with a null or absent upload date gets the current time, and every other record is untouched |
| FixUploadDates.NoNullDatesAfter | cdl-mmkg-mvp/backend/fix_upload_dates.py:46-50 | afterwards no record has a null upload date, and every repaired one has the same time |
| FixUploadDates.FixIdempotent | cdl-mmkg-mvp/backend/fix_upload_dates.py:26-31 | a second run, at any time, finds nothing to repair and changes nothing |
| FixUploadDates.FixKeepsOtherFields | cdl-mmkg-mvp/backend/fix_upload_dates.py:37-40 | no field other than the upload date is touched |
| FixUploadDates.MigrateThenFix | cdl-mmkg-mvp/backend/fix_upload_dates.py:37-40 | after a migration that runs and then the repair, every record has a non-null upload date: its own when it had a non-null one, the repair time when it was null or absent |

## Left out

- Records.Document: every document has all the fields, in the shape `migrate_schema.py` gives it.
  Documents that lack `title`, `content`, `authors` or `tags` cannot be represented. An example is
  what `scripts/ingest_data.py` writes: only `text` and `abstract_embedding`. So the search
  script's defaults for missing fields (`"N/A"` for a title, `""` for content) are not
  modelled. Nor is the front end's failure on a document without `authors` or `tags`.
- I/O: the store connection, the console output of the scripts and their verification
  counts, file saving, file deletion and the `uploads` directory. Store calls are
  modelled as infallible functions over a sequence of documents or records.
- Exceptions from the store: the lexical search's `except` branch, and a migration
  that stops halfway.
- The embedding model, the native vector engine's ranking, `ObjectId` parsing and
  generation, PDF/DOCX text extraction and `datetime.utcnow()`. Each is a parameter,
  because its behaviour is outside the repository's own logic.
- The vector engine's scores are passed through unexamined. The engine is one
  oracle call whose answer is either rows or a failure.
- Regular-expression metacharacters in the search query. The query is matched as a
  literal substring; the search script hands it to `$regex` unescaped.
- Unicode. Blanks are the ASCII space, tab, line feed, vertical tab, form feed and
  carriage return, and case folding is ASCII `A`–`Z`. Python's `strip`/`lower`,
  JavaScript's `trim` and the store's `$options: "i"` also handle other Unicode
  characters.
- Text.IsSpace: the ASCII separators U+001C to U+001F are blanks to Python's
  `strip()` but not to JavaScript's `trim()`, and not to the model. The back end's
  comma-list parse of `"a,\x1c"` is `["a"]`; the model's is two items. The front end and
  the back end are given one blank set, so `SentAsParsed` does not show where
  they differ on these characters.
- DocumentManagement.TruncateText: lengths are counted in Unicode scalar values.
  JavaScript's `length` and `substring` count UTF-16 code units, so a text of 101
  characters outside the Basic Multilingual Plane is 202 units long there and is
  cut, while the model keeps it whole. `DocumentManagement.CardText` inherits this.
- Floating point. Vector components and scores are reals.
- The hard-coded test query "quality" of the search script is a parameter.
- `backend/api/search.py`, the HTTP search endpoint, is not part of this model. The
  search behaviour modelled is that of the search script.
- The request models `DocumentCreate` and `DocumentUpdate` are imported by
  `api/documents.py` but not defined in `models/document.py`. The update body is
  inferred from what `saveEdit` in `DocumentManagement.jsx` sends: title, content,
  authors and tags, each optional. `create_document` is left out because nothing in
  the front end sends it a body, so its fields cannot be inferred.
- The document endpoints are modelled by the values their handlers return. What
  is served is not modelled:
  - their declared `response_model=DocumentResponse` is the search-result shape of
    `models/document.py` (`text`, `score`), which the returned documents do not fit,
    so the framework's response validation would turn a successful upload, list,
    get or update into a server error;
  - `main.py` includes only the search router, so the document routes are not
    mounted.

  The lemmas relating the front end to the back end (`SaveAlwaysReembeds`,
  `ReplaceMatchesServer`, `DeleteMatchesServer`, `UploadedEditRoundTrip`) assume
  that the front end receives the handlers' return values.
- `debug_document_count`: it only reports.
- The listing's sort by upload date, `skip`, `limit` and projection are left out: they
  belong to the store's query engine. Only the tag filter and its `$in` test are modelled.
- Front-end rendering, React hooks and effects, `loadDocuments`, `handleInputChange`,
  `handleFilterChange`, `formatDate`, drag-and-drop events, the success timer and the
  file-input reset are left out. They hold no decisions beyond the state updates
  modelled.
- The ordering of React's state updates is not modelled: each handler is one
  function from the old state to the new state.
- DocumentsApi.DeleteDocument: the `deleted_count == 0` branch is not modelled. It
  cannot be reached without another client deleting the document between the
  lookup and the delete.
- DocumentManagement.SaveEdit: without an open form, the alert text is an
  approximation of the browser's `TypeError` message. The contract states only that
  some alert is shown.
- DocumentUpload.HandleSubmit: the `uploading` flag is only stated for the paths that
  send a request. On the guard paths the flag is left as it was, as `handleSubmit` leaves it.
- The two checks are independent, and neither is reconciled with the other:
  - the front end checks the MIME type;
  - the back end checks the extension.

  `DocumentUpload.MimeAcceptedExtensionRefused` exhibits the difference.
- Facts about the code that the model keeps as they are:
  - the search script's vector path has one failure outcome: an exception and an
    empty answer both lead to the lexical fallback;
  - the search script validates no limit;
  - `update_document` re-embeds the full new content, while `upload_document`
    embeds only the first 5000 characters.
