# FaceId core in Dafny

A model of the face-identification service naumovmag/FaceId:

- the best-match selection over candidate similarities;
- the person and photo store and the person service built on it (adding photos, the candidate list used for identification, the identification decision tree, deleting people and photos, statistics);
- the validators, the extension settings, the file-service rules for names, directories and saving;
- the JSON API routes, with their error-to-status mapping and the temp-file cleanup in identification;
- the arithmetic of the HTML pages;
- the user registry with its register/login/admin-guard transitions.

Everything is immutable data and pure functions. Each module follows one source file:

| module | file | models |
|---|---|---|
| `Common` | `common.dfy` | `Option`, `Result`, the exception kinds of `app/utils/exceptions.py`, validation reports |
| `Text` | `text.dfy` | Python's `str.strip`, `str.lower` (ASCII), `str.split`, `join`, `str(int)` |
| `Settings` | `settings.dfy` | `app/config/settings.py` |
| `Paths` | `paths.dfy` | `pathlib.Path(...).name` / `.suffix` |
| `Validators` | `validators.dfy` | `app/utils/validators.py` |
| `Schemas` | `schemas.dfy` | `app/models/person.py` |
| `Store` | `store.dfy` | `app/models/database.py` and the queries run on it |
| `Matcher` | `matcher.dfy` | `app/services/face_service.py` |
| `Files` | `files.dfy` | `app/services/file_service.py` |
| `PersonService` | `person_service.dfy` | `app/services/person_service.py` |
| `Users` | `users.dfy` | `app/services/user_service.py` |
| `Auth` | `auth.dfy` | `app/routes/auth.py`, `app/routes/admin.py` |
| `Api` | `api.dfy` | `app/routes/api.py` |
| `Web` | `web.dfy` | `app/routes/web.py` |

The outside world becomes parameters:

- **Similarity.** The cosine similarity of the target embedding and a stored one is a function `score: seq<real> -> Score`. Its result is `Scored(s)`, or `Raised` when the comparison throws.
- **Face extraction.** It is an `Extraction` value: `Extracted(embedding, confidence)`, `NoFace` (the extractor raised `FaceDetectionError`) or `ExtractorError` (any other exception).
- **Database failure.** A failing database read is a `storeFails` flag.
- **The file system.** It is a set of existing paths plus a set of `locked` paths whose removal raises. Where a save fails is a `WriteFault`: opening the file, writing it after it was created, or hashing it. A decoded image is an `ImageInfo`.
- **Other inputs.** The clock is a `now: int` or a `timestamp` string. The uuid is a string. The MIME guess is `mimeAccepted: string -> bool`. The password hash is `hash: string -> string`, injective where a lemma needs it.
- **Keys.** The tables declare `INTEGER PRIMARY KEY` without `AUTOINCREMENT`, so SQLite gives a new row one more than the largest key stored, and 1 in an empty table. Deleting the newest row frees its key for the next insert (`Common.NextKey`, `Store.DeleteNewestPersonFreesKey`).
- **Ordering.** The store keeps rows in insertion (id) order. `ORDER BY created_at DESC` is `Store.NewestFirst`: newer rows first, and rows from the same second in ascending id. Creation times have one-second resolution, so rows often share a second; the model treats ties as SQLite returns them from a table scan, in rowid order.

## Model

| member | source | states |
|---|---|---|
| Matcher.ResolveThreshold | app/services/face_service.py:112-113 | a missing threshold falls back to the configured one; a given one is used as is |
| Matcher.Compare | app/services/face_service.py:105-121 | the match flag holds exactly when the similarity is strictly above the resolved threshold; the similarity is returned unchanged |
| Matcher.EqualIsNoMatch | app/services/face_service.py:120 | a similarity equal to the threshold, given or configured, is not a match |
| Matcher.ScanCases | app/services/face_service.py:144-159 | the scan keeps its current best when no later candidate beats it, and otherwise ends on the unique winner: the first candidate with the largest similarity above both the threshold and the running best |
| Matcher.ScanTakesFirst | app/services/face_service.py:157-159 | when the first candidate beats the running best, the scan still ends on a winner of the whole list |
| Matcher.ScanSkipsFirst | app/services/face_service.py:157 | a first candidate that does not beat the running best leaves the outcome to the rest of the list |
| Matcher.FindBestMatch | app/services/face_service.py:123-174 | no candidates give None; the result is None exactly when no candidate beats max(threshold, 0); otherwise it is the id and similarity of the winner |
| Matcher.WinnerUnique | app/services/face_service.py:157 | the winner of a scan is determined: two winners are the same position |
| Matcher.MatchIsCandidate | app/services/face_service.py:144-159 | a returned (id, similarity) is one of the candidates, with its own similarity, above the threshold and above 0 |
| Matcher.MatchIsMaximal | app/services/face_service.py:136-159 | every candidate above the threshold and 0 has a similarity at most the returned one |
| Matcher.EarliestTieWins | app/services/face_service.py:157 | of two equal qualifying similarities the later one never wins |
| Matcher.WinnerIsNotLaterTie | app/services/face_service.py:157 | the winner is never a candidate tied with an earlier qualifying one |
| Matcher.ScanSkipsRaised | app/services/face_service.py:161-165 | a candidate whose comparison raises does not change the scan from any state |
| Matcher.RaisedCandidateIgnored | app/services/face_service.py:161-165 | the best match with a raising candidate equals the best match of the list without it |
| Matcher.OrderMatters | app/services/face_service.py:144-159 | two tied candidates give different results in the two orders: the first listed wins |
| Matcher.ZeroFloor | app/services/face_service.py:136-137 | a similarity of 0 never matches, even under a negative threshold |
| Matcher.Scan | app/services/face_service.py:144-159 | the loop from a given candidate on: a candidate with a score, above the threshold and strictly above the best similarity so far replaces the best pair; the contract is in Matcher.ScanCases |
| Matcher.Beats | app/services/face_service.py:157 | the replacement condition: the comparison gave a similarity, it is above the threshold and strictly above the best so far |
| Settings.RawExtensionsShape | app/config/settings.py:41-44 | a comma-separated value yields one entry per comma plus one, each stripped and lower-cased and free of commas |
| Settings.ParseAllowedExtensions | app/config/settings.py:34-39 | the validator turns text into a list; an existing list is kept; the effective list is unchanged |
| Settings.MakeConfig | app/config/settings.py:6-45 | a built configuration holds the parsed list and the same effective extensions as its input |
| Settings.NormalizeKeepsNoComma | app/config/settings.py:38 | normalising a comma-free piece gives a normalised entry |
| Settings.NormalizePlain | app/config/settings.py:38 | an already stripped lower-case piece is left as is |
| Settings.NormalizeAllPlain | app/config/settings.py:44 | a list of already normalised pieces is left as is |
| Settings.ThreeItems | app/config/settings.py:44 | "a,b,c" with plain pieces gives exactly [a, b, c] |
| Settings.DefaultSettings | app/config/settings.py:23-25 | the defaults are threshold 0.6, 10485760 bytes and the extensions jpg, jpeg, png |
| Settings.DefaultExtensionList | app/config/settings.py:25 | the default text parses to ["jpg", "jpeg", "png"] |
| Settings.ExtensionsRoundTrip | app/config/settings.py:38 | parsing the comma-join of a parsed list gives the list back |
| Settings.TrailingCommaKeepsEmptyPiece | app/config/settings.py:44 | a trailing comma adds an empty entry; empty pieces are kept |
| Settings.NormalizeExtension | app/config/settings.py:38 | one piece of the list: `strip()` then `lower()` |
| Settings.AllowedExtensionsList | app/config/settings.py:41-44 | a raw text is split on every comma and each piece normalised; an already parsed list is returned as it is |
| Settings.DefaultConfig | app/config/settings.py:23-28 | the settings built from the declared defaults 0.6, 10485760, "jpg,jpeg,png" and "./uploads", through the field validator |
| Paths.KeepParts | app/services/file_service.py:45 | the path components kept are non-empty, not ".", and come from the input |
| Paths.Name | app/services/file_service.py:45 | the final component of a path contains no separator |
| Paths.RFind | app/services/file_service.py:45 | the index of the last occurrence of a character, or -1 when there is none |
| Paths.Suffix | app/services/file_service.py:89 | a suffix is empty or a dot followed by at least one dot-free, separator-free character |
| Paths.LStrip | app/services/file_service.py:45 | leading copies of a character are removed and the rest is a tail of the input |
| Paths.ExtensionSpec | app/services/file_service.py:40-46 | the extension is the lower-cased text after the last dot of the name, and empty when that dot is the first or last character or missing |
| Paths.DotThenTail | app/services/file_service.py:45 | stripping the dot from a lower-cased suffix gives the lower-cased tail |
| Paths.NameOfPlainName | app/services/file_service.py:45 | a separator-free name is its own final component |
| Paths.ExtensionAfterLastDot | app/services/file_service.py:45 | "base.ext" has the extension lower(ext) |
| Paths.LastDotAt | app/services/file_service.py:45 | in "base.ext" with a dot-free ext, the last dot is the one before ext |
| Paths.NoExtensionForLeadingDot | app/services/file_service.py:45 | a hidden-file name ".ext" has no extension |
| Paths.NoExtensionForTrailingDot | app/services/file_service.py:45 | a name ending in a dot has no extension |
| Paths.NoExtensionWithoutDot | app/services/file_service.py:45 | a dot-free name has no extension |
| Paths.Parts | app/utils/validators.py:35 | the components of a path as `pathlib` keeps them: split on `/`, with empty and `.` components dropped |
| Paths.Extension | app/utils/validators.py:35 | `Path(name).suffix.lower().lstrip('.')`, stated in closed form by Paths.ExtensionSpec |
| Paths.AllowedExtension | app/utils/validators.py:30-37 | a name is accepted when it is non-empty and its extension is one of the allowed ones |
| Text.TrimStart | app/utils/validators.py:15 | the result is a tail of the input, everything cut off is whitespace, and it starts with a non-space |
| Text.TrimEnd | app/utils/validators.py:15 | the result is a prefix of the input, everything cut off is whitespace, and it ends with a non-space |
| Text.Strip | app/utils/validators.py:97 | the result has no surrounding whitespace and is empty exactly when the input is all whitespace |
| Text.StripFacts | app/utils/validators.py:97-102 | trimming both ends leaves no surrounding whitespace and empties exactly an all-space input |
| Text.StripTrimmed | app/utils/validators.py:102 | a string without surrounding whitespace is its own strip |
| Text.StripIdempotent | app/utils/validators.py:102 | stripping twice is stripping once |
| Text.StripKeepsAbsent | app/utils/validators.py:102-114 | stripping adds no character |
| Text.LowerChar | app/config/settings.py:38 | upper-case ASCII letters become lower case; other characters are unchanged |
| Text.Lower | app/config/settings.py:38 | lower-casing works character by character and keeps the length |
| Text.LowerIdempotent | app/config/settings.py:38 | lower-casing twice is lower-casing once |
| Text.LowerKeepsAbsent | app/config/settings.py:38 | lower-casing introduces no non-letter character |
| Text.StripLowerOfStripped | app/config/settings.py:38 | a stripped string stays stripped after lower-casing |
| Text.Search | app/utils/validators.py:20 | the search holds exactly when some character satisfies the predicate |
| Text.Split | app/config/settings.py:38 | splitting yields at least one piece and no piece holds the separator |
| Text.SplitCount | app/config/settings.py:38 | splitting gives one piece more than there are separators |
| Text.SplitWithoutSeparator | app/config/settings.py:38 | a separator-free text splits into itself alone |
| Text.SplitAfterPiece | app/config/settings.py:38 | the piece before the first separator is the first piece |
| Text.SplitJoin | app/config/settings.py:38 | splitting a join of separator-free pieces gives the pieces back |
| Text.JoinSplit | app/config/settings.py:38 | joining the pieces of a split gives the text back |
| Text.NatToString | app/services/file_service.py:94 | the decimal form of a natural number is non-empty and all digits |
| Text.IntToString | app/services/file_service.py:94 | the decimal form of an integer is non-empty, digits and a sign |
| Text.NatToStringRoundTrip | app/services/file_service.py:94 | reading the digits back gives the number |
| Text.IntToStringRoundTrip | app/services/file_service.py:94 | reading the decimal form back gives the integer |
| Text.IntToStringInjective | app/services/file_service.py:136 | different ids give different directory names |
| Text.Join | app/config/settings.py:38 | the pieces written one after another with the separator between them, the text that `split` on that separator reads back (see Text.SplitJoin) |
| Text.IsSpace | app/utils/validators.py:15 | the characters Python's `str.isspace` accepts, which `strip()` removes |
| Validators.ValidateFilenameShape | app/utils/validators.py:13-27 | a filename is valid exactly when it is not blank after stripping, holds none of < > : " / \ \| ? *, and is at most 255 characters unstripped |
| Validators.ValidateImageDimensions | app/utils/validators.py:60-83 | valid exactly when both sides are within 50..4000; too small and too large are reported as such; an aspect ratio above 5 is reported but leaves the result valid |
| Validators.RatioAboveFive | app/utils/validators.py:79-80 | for positive sides the ratio test max/min > 5 is the integer test max > 5·min |
| Validators.NameErrors | app/utils/validators.py:104-121 | on a stripped name, each error appears exactly when its rule fails (length < 2, > 255, a forbidden character, no letter or digit), and none means acceptable |
| Validators.ValidatePersonName | app/utils/validators.py:90-123 | a missing or blank name gives exactly the one empty-name error; otherwise the stripped name is judged by all rules; valid exactly when there is no error |
| Validators.FirstBadEntry | app/utils/validators.py:171-181 | the first entry that is not a finite number, searching from a position, or none |
| Validators.ValidateEmbeddingVector | app/utils/validators.py:149-187 | empty gives exactly one error; valid exactly when there are 512 finite entries; a wrong size is reported with the size; only the first bad entry is reported, and one is reported when there is any |
| Validators.OnlyFirstBadEntryReported | app/utils/validators.py:175-181 | at most one bad entry is reported |
| Validators.FilenameErrors | app/utils/validators.py:206-219 | the name, extension and MIME errors each appear exactly when their check fails, and nothing else appears |
| Validators.SizeErrors | app/utils/validators.py:222-228 | a missing size and an out-of-range size are each reported exactly when they occur |
| Validators.UploadNameErrors | app/utils/validators.py:202-219 | a missing or empty filename is reported exactly when it occurs; no error at all means the name passes every filename check |
| Validators.UploadNameErrorsExact | app/utils/validators.py:205-219 | for a present, non-empty name the name, extension and MIME errors each appear exactly when their check fails |
| Validators.ValidateUploadRequest | app/utils/validators.py:190-235 | valid exactly when there is no error and exactly when the name, extension, MIME type and size pass and a given person id is positive; each missing or bad field is reported exactly when it occurs |
| Validators.UploadRequestNameErrors | app/utils/validators.py:190-235 | in the whole request's errors the name, extension and MIME errors each appear exactly when the name is present, non-empty and fails that check |
| Validators.ValidUploadHasName | app/utils/validators.py:202-224 | an accepted upload request has a non-empty filename and a size |
| Validators.ValidateIdentificationRequest | app/utils/validators.py:238-267 | valid exactly when the path is non-empty, exists, is a file and has an allowed extension; at most one error is reported |
| Validators.ValidateFilename | app/utils/validators.py:13-27 | false for an empty or blank name, for a name with a forbidden character, and for one longer than 255 characters, checked in that order; Validators.ValidateFilenameShape states the condition |
| Validators.ValidateFileExtension | app/utils/validators.py:30-37 | a non-empty name whose extension is in the configured list |
| Validators.ValidateFileSize | app/utils/validators.py:40-42 | 0 < size <= the configured maximum |
| Validators.ValidatePersonId | app/utils/validators.py:126-132 | an integer id is valid exactly when it is positive |
| Validators.ValidateThreshold | app/utils/validators.py:139-141 | 0 <= threshold <= 1 |
| Validators.ValidateConfidence | app/utils/validators.py:144-146 | 0 <= confidence <= 1 |
| Validators.FilenameForbidden | app/utils/validators.py:18 | one of the nine characters the file-name check rejects: `<`, `>`, `:`, `"`, `/`, `\`, the vertical bar, `?` and `*` |
| Validators.NameForbidden | app/utils/validators.py:113 | one of the eight characters the name check rejects: those of the file-name check except `:` |
| Validators.NameAlphanumeric | app/utils/validators.py:118 | a character of `[a-zA-Zа-яА-Я0-9]`: ASCII letters and digits and Cyrillic U+0410..U+044F, so not `ё` or `Ё` |
| Validators.Blank | app/utils/validators.py:97 | a name that is None, empty or whitespace only |
| Schemas.Clamp | app/models/person.py:64-72 | the clamp lands in [0, 1], keeps values inside, and sends values above 1 to 1 and below 0 to 0 |
| Schemas.ClampIdempotent | app/models/person.py:64-72 | clamping twice is clamping once |
| Schemas.ClampMonotone | app/models/person.py:64-72 | the clamp preserves order |
| Schemas.MakeResult | app/models/person.py:56-72 | a result is refused exactly when the confidence is outside [0, 1] or the similarity is negative; an accepted one keeps its fields and clamps only a similarity above 1 |
| Schemas.DefaultsAreValid | app/models/person.py:56-62 | the default result has no person, name or photo, confidence 0, similarity 0 and no match, and is accepted |
| Schemas.LargeSimilarityClamped | app/models/person.py:60-69 | a similarity above 1 is accepted and becomes 1.0 |
| Schemas.MakeResultStable | app/models/person.py:64-72 | rebuilding an accepted result from its own fields gives the same result |
| Schemas.NameFits | app/models/person.py:6-7 | `PersonBase.name`: 1 to 255 characters |
| Schemas.UpdateNameFits | app/models/person.py:14-15 | `PersonUpdate.name`: absent, or 1 to 255 characters |
| Schemas.PhotoFieldsFit | app/models/person.py:18-21 | `PhotoBase`: filename of 1 to 255 characters, file path of 1 to 500, confidence in [0, 1] |
| Store.Filter | app/services/person_service.py:51-54 | the rows kept are exactly those of the table satisfying the filter |
| Store.FilterPhotosOrdered | app/models/database.py:22-29 | filtering keeps id and creation order |
| Store.FilterPersonsOrdered | app/models/database.py:10-12 | filtering keeps id and creation order |
| Store.InsertNewest | app/services/person_service.py:54 | placing a row into a newest-first list adds exactly that row |
| Store.InsertNewestSorted | app/services/person_service.py:54 | placing a row into a newest-first list keeps it newest first |
| Store.NewestFirst | app/services/person_service.py:54 | ordering by creation time, newest first, permutes the rows |
| Store.NewestFirstSortedLemma | app/services/person_service.py:52-54 | the ordered rows are newest first, with same-second rows by ascending id, and have the same length and members as the input |
| Store.InsertNewestDistinct | app/models/database.py:22 | placing a row with a fresh id keeps ids distinct |
| Store.NewestFirstDistinct | app/models/database.py:22 | ordering keeps ids distinct |
| Store.NewestFirstStrict | app/services/person_service.py:54 | with distinct ids every earlier row is strictly newer, or from the same second with a smaller id |
| Store.NewestHeads | app/services/person_service.py:232 | a row placed before every other row heads the newest-first list |
| Common.NextKey | app/models/database.py:10 | the key SQLite gives a new row of a table without AUTOINCREMENT: above every stored key, 1 for an empty table, otherwise one more than the largest stored key |
| Common.NextKeyAfterLast | app/models/database.py:22 | when keys increase along the table, the next key is one more than the last row's key |
| Common.Truthy | app/services/file_service.py:93 | Python truthiness of an optional id: false for None and for 0, true for any other integer |
| Common.FirstIndex | app/services/person_service.py:326-329 | the position of the first row whose key is the id, or the table's length when no row has it; every earlier row has another key |
| Common.FindFirst | app/services/person_service.py:39 | the first row whose key is the id: None exactly when no row has it, otherwise a stored row with that key and no earlier row with it |
| Common.FindFirstUnique | app/services/person_service.py:39 | when only the row at k has the id, the lookup returns that row |
| Store.NextPersonId | app/models/database.py:10 | a new person's key is above every stored key: 1 for an empty table, otherwise one more than the largest stored key |
| Store.NextPhotoId | app/models/database.py:22 | a new photo's key is above every stored key: 1 for an empty table, otherwise one more than the largest stored key |
| Store.DeleteNewestPersonFreesKey | app/models/database.py:10 | deleting the newest person frees its key: the next key drops back to at most that key |
| Store.DeleteNewestPhotoFreesKey | app/models/database.py:22 | deleting the newest photo frees its key: the next key drops back to at most that key |
| Store.InsertPerson | app/models/database.py:7-13 | a new person gets one more than the largest stored key, the given name and time, and is appended; photos are untouched |
| Store.InsertPhoto | app/models/database.py:19-30 | a new photo gets one more than the largest stored key, is active by default, and is appended; persons are untouched |
| Store.AppendPhotoOrdered | app/models/database.py:22-29 | a row with a larger key and no earlier time than every stored row keeps the photo table ordered |
| Store.FilterAppend | app/services/person_service.py:227-232 | a row appended to a table is appended to the filtered rows exactly when it passes the filter |
| Store.DeletePersonCascade | app/models/database.py:16 | deleting a person removes exactly that person and exactly their photos |
| Store.DeletePhotoRow | app/services/person_service.py:213 | exactly the photo with that id is removed |
| Store.InsertPersonWellFormed | app/models/database.py:7-13 | inserting a person keeps ids unique and increasing and creation times ordered |
| Store.InsertPhotoWellFormed | app/models/database.py:19-30 | inserting a photo of an existing person keeps the store well formed |
| Store.SameKeysWellFormed | app/services/person_service.py:81-85 | changing only person names keeps the store well formed |
| Store.KeptRowsWellFormed | app/models/database.py:16-23 | keeping an ordered subset of rows, with the owner of every kept photo, keeps the store well formed |
| Store.DeletePersonCascadeWellFormed | app/models/database.py:16 | the cascade leaves no photo without its person |
| Store.DeletePhotoRowWellFormed | app/services/person_service.py:213 | removing a photo keeps the store well formed |
| Store.HasPerson | app/models/database.py:23 | the foreign key of a photo names a stored person |
| Store.Precedes | app/services/person_service.py:232 | the listing order of `ORDER BY created_at DESC`: newer first, and in the same second the smaller key first |
| PersonService.CreatePerson | app/services/person_service.py:21-30 | the new person carries the name, the time and one more than the largest stored key, and is appended |
| PersonService.DeletedNewestPersonKeyReused | app/services/person_service.py:21-30 | with persons 1 and 2, deleting 2 and creating a person gives the new person key 2 again |
| PersonService.GetPerson | app/services/person_service.py:37-42 | the person is returned exactly when the id exists |
| PersonService.CreateThenGet | app/services/person_service.py:21-42 | a created person is found by its id, which was unused before |
| PersonService.FindPersonUnique | app/services/person_service.py:39 | with increasing keys, or no other row with the id, the lookup returns the one person with the id |
| PersonService.ActiveRowsOf | app/services/person_service.py:51-53 | exactly the active photos of the person |
| PersonService.ActivePhotosOf | app/services/person_service.py:51-54 | exactly the active photos of the person, in the order of the query |
| PersonService.GetPersonWithPhotos | app/services/person_service.py:44-64 | an unknown id gives None; an active photo that fails the Photo schema (null or out-of-range confidence, empty or too long name or path) makes the call raise; otherwise the person with exactly their active photos, each fitting the schema |
| PersonService.PersonPhotosNewestFirst | app/services/person_service.py:51-54 | a person's active photos are listed strictly newest first, same-second photos by ascending id |
| PersonService.PersonsNewestFirst | app/services/person_service.py:68-70 | every stored person exactly once |
| PersonService.PersonsListedNewestFirst | app/services/person_service.py:68-70 | the listing permutes the persons and is strictly newest first, same-second people by ascending id |
| PersonService.Page | app/services/person_service.py:68-70 | min(limit, rows left after offset) rows, those from the offset on |
| PersonService.GetAllPersons | app/services/person_service.py:66-72 | the page holds min(limit, rows left after offset) people: the newest-first listing from the offset on |
| PersonService.PagesConcatenate | app/services/person_service.py:66-72 | two consecutive pages of size n are the page of size 2n |
| PersonService.PageSlices | app/services/person_service.py:68-70 | two consecutive pages of size n of any listing are its page of size 2n |
| PersonService.UpdatePerson | app/services/person_service.py:74-88 | an unknown id gives None and no change; otherwise only that person's name changes, and only when a name is given |
| PersonService.UpdateKeepsWellFormed | app/services/person_service.py:74-88 | an update keeps the store well formed |
| PersonService.UpdateThenGet | app/services/person_service.py:74-88 | after renaming, reading the person gives the new name |
| PersonService.CreateKeepsColumnsFit | app/models/person.py:6-7 | creating a person whose name fits the schema keeps every stored name and path within its column length |
| PersonService.UpdateKeepsColumnsFit | app/models/person.py:14-15 | an update whose name is absent or fits the schema keeps every column within its length |
| PersonService.AddPhotoKeepsColumnsFit | app/models/person.py:18-21 | a successful add, or a rejected embedding, keeps every column within its length |
| PersonService.DeletesKeepColumnsFit | app/models/database.py:11-25 | deleting a person or a photo keeps every column within its length |
| PersonService.UnlinkAll | app/services/person_service.py:105-118 | unlinking succeeds exactly when no existing file is locked; on success exactly the listed files go; on failure only listed unlocked files may have gone |
| PersonService.RemoveTree | app/services/person_service.py:121 | every unlocked file under the directory is removed and nothing else; errors are ignored |
| PersonService.PhotoPaths | app/services/person_service.py:102-106 | one path per photo of the person |
| PersonService.DeletePerson | app/services/person_service.py:95-142 | an unknown id gives False and no change; a failed unlink gives DatabaseError with the rows intact; otherwise True, the cascade, and the photo files and the person directory removed |
| PersonService.DeletePersonFrame | app/services/person_service.py:95-135 | after a deletion the person and their photos are gone and every other row remains |
| PersonService.AddPhotoToPerson | app/services/person_service.py:144-203 | an embedding whose length is not 512 gives FaceDetectionError and no change; otherwise the active photo keyed one above the largest stored photo key is committed, and the call succeeds exactly when its name, path and confidence fit the Photo schema, else DatabaseError with the row kept |
| PersonService.DeletePhoto | app/services/person_service.py:205-217 | an unknown id gives None and no change; otherwise exactly that photo goes and its stored path is returned |
| PersonService.EligibleRows | app/services/person_service.py:227-232 | exactly the photos that are active, hold a decodable 512-entry vector and belong to a stored person |
| PersonService.CandidatePhotos | app/services/person_service.py:227-232 | the candidates are exactly the photos that are active, hold a decodable 512-entry vector and belong to a stored person |
| PersonService.ActiveEmbeddings | app/services/person_service.py:224-268 | one row per candidate photo, in order, each with a 512-entry embedding |
| PersonService.ActiveEmbeddingsExactly | app/services/person_service.py:227-264 | a photo has a row exactly when it is eligible: active, 512 decodable entries and an existing person |
| PersonService.ActiveEmbeddingsNewestFirst | app/services/person_service.py:232 | the candidates permute the eligible photos and are strictly newest first, same-second photos by ascending id; the rows carry their ids in that order |
| PersonService.AddedPhotoComesFirst | app/services/person_service.py:144-198 | a photo added in a later second than every stored photo heads the identification candidates |
| PersonService.RowCandidates | app/services/person_service.py:308-311 | one (photo id, score) candidate per row, in order |
| PersonService.Finish | app/services/person_service.py:355-361 | a refused result becomes the zero result with an empty embedding |
| PersonService.Decide | app/services/person_service.py:297-351 | an out-of-range confidence gives the zero result; otherwise the result carries the detection confidence and the embedding |
| PersonService.Identify | app/services/person_service.py:274-361 | only a missing face raises; other extractor or store failures give the zero result; otherwise the decision over the candidate rows |
| PersonService.MatchedRowAlwaysFound | app/services/person_service.py:326-347 | the row lookup for a winning photo id always succeeds |
| PersonService.DecideMatchIff | app/services/person_service.py:297-351 | the result is a match exactly when some row scores above the threshold and above 0 |
| PersonService.DecideMatchNames | app/services/person_service.py:325-345 | a match names the winning photo, its row's person id and name, and the winner's similarity, clamped |
| PersonService.DecideReportsWinner | app/services/person_service.py:325-345 | a match reports the photo id of the best match over the rows and its similarity, clamped |
| PersonService.DecideMatchIsBest | app/services/person_service.py:325-345 | no row scoring above the threshold and 0 has a clamped similarity above the reported one |
| PersonService.SameSecondCandidates | app/services/person_service.py:227-232 | two active photos from the same second are listed in ascending id |
| PersonService.SameSecondTieReportsSmallerKey | app/services/person_service.py:232 | with two photos from the same second and equal scores, identification reports the smaller id |
| PersonService.DecideNonMatch | app/services/person_service.py:297-322 | a non-match has no person and no photo, similarity 0 and the detection confidence |
| PersonService.SumConfidence | app/services/person_service.py:377 | the sum is undefined exactly when some confidence is null |
| PersonService.SumConfidenceBounds | app/services/person_service.py:377 | confidences in [0, 1] sum to between 0 and their count |
| PersonService.LatestIndex | app/services/person_service.py:378 | the position of a photo created no earlier than any other |
| PersonService.EarliestIndex | app/services/person_service.py:379 | the position of the first photo created no later than any other |
| PersonService.PhotosOf | app/services/person_service.py:366 | exactly the photos of the person |
| PersonService.ActiveOf | app/services/person_service.py:368 | exactly the active photos |
| PersonService.Average | app/services/person_service.py:377 | the average times the count is the sum |
| PersonService.StatsOf | app/services/person_service.py:366-398 | counts of all and active photos; with active photos the mean confidence, the latest date and the earliest photo's path; without them zeros and None; a null confidence gives the all-zero statistics |
| PersonService.GetPersonStats | app/services/person_service.py:363-398 | active never exceeds total; no active photos gives average 0 and no date or preview |
| PersonService.StatsDates | app/services/person_service.py:378-380 | the last date is the latest active creation time; the preview is the path of the first earliest active photo |
| PersonService.StatsCounts | app/services/person_service.py:366-370 | total counts the person's photos and active counts exactly the active ones |
| PersonService.StatsNullConfidence | app/services/person_service.py:376-398 | an active photo with a null confidence makes the sum fail, giving the all-zero statistics |
| PersonService.AverageBounds | app/services/person_service.py:377 | an average of values in [0, 1] is in [0, 1] |
| PersonService.StatsAverageBounds | app/services/person_service.py:377 | with confidences in [0, 1] the average is in [0, 1] |
| PersonService.PersonDirectory | app/services/person_service.py:121 | `base_path / 'persons' / str(person_id)` |
| PersonService.Eligible | app/services/person_service.py:227-245 | a photo reaches the identification rows when it is active, holds a decoded vector of 512 entries and its person exists (the join) |
| PersonService.RowOf | app/services/person_service.py:247-253 | the row built for an eligible photo: its id, person id, the person's name, the vector and the confidence |
| PersonService.PhotoRowFits | app/models/person.py:18-37 | a stored row that `Photo.from_orm` accepts: a non-null confidence and the `PhotoBase` bounds |
| Files.DeleteFile | app/services/file_service.py:183-195 | True exactly when the file existed and could be removed; only then is it gone |
| Files.DeleteFileTwice | app/services/file_service.py:183-195 | deleting again reports False and changes nothing |
| Files.ValidateImageContent | app/services/file_service.py:52-85 | an unreadable file gives exactly one error; for a decoded image, too small, too large and a format outside JPEG and PNG are each reported exactly when they hold, and they accumulate |
| Files.ContentAgreesWithDimensions | app/services/file_service.py:67-73 | for a supported format the content check and the dimension validator agree on validity |
| Files.ShortId | app/services/file_service.py:91 | at most the first 8 characters of the uuid, exactly 8 when there are enough |
| Files.StemHasNo | app/services/file_service.py:93-96 | the generated stem is non-empty and has no dot or separator that its parts lack |
| Files.GeneratedNameKeepsExtension | app/services/file_service.py:87-96 | the generated name has the same extension as the original |
| Files.NoSuffixKeepsExtension | app/services/file_service.py:89-96 | an original without suffix gives a generated name without extension |
| Files.SuffixKeepsExtension | app/services/file_service.py:89-96 | appending the lower-cased suffix keeps the original's extension |
| Files.StemThenSuffix | app/services/file_service.py:94-96 | a stem followed by the lower-cased suffix is the stem, a dot and the lower-cased tail |
| Files.ExtensionOfSuffix | app/services/file_service.py:89 | the extension is the lower-cased suffix without its dot |
| Files.LowerDotTail | app/services/file_service.py:89 | lower-casing a dotted tail keeps the dot in front |
| Files.ZeroIdIsTemporary | app/services/file_service.py:93-96 | a person id of 0 is falsy and names the file like a temporary one |
| Files.TargetDirectory | app/services/file_service.py:133-139 | temporary or falsy-id saves go to temp; otherwise to persons/<id> |
| Files.WriteAndCheck | app/services/file_service.py:143-181 | a failed open gives FileStorageError and no change; a failed write, or a failed hash of valid content, gives FileStorageError and leaves the created file; rejected content is deleted again and gives FileValidationError; success exactly without fault and with valid content, adding the file; no other path changes |
| Files.SaveUploadedFile | app/services/file_service.py:106-181 | the extension check precedes the size check and both precede the write, each failing with FileValidationError and no change; success exactly when all checks and the write pass, with the generated relative path under the upload root |
| Files.SaveTouchesOnlyItsPath | app/services/file_service.py:106-181 | saving touches no file but its own target |
| Files.FailedSaveFrame | app/services/file_service.py:106-181 | for an accepted extension and size: a failed open leaves the files as they were; a failed write, or a failed hash of valid content, leaves the created target; rejected content leaves the files without the target |
| Files.PathJoin | app/services/file_service.py:136 | `Path(a) / b`: the two parts joined by one `/` |
| Files.SupportedFormat | app/services/file_service.py:75 | the decoded format is JPEG or PNG |
| Files.GeneratedStem | app/services/file_service.py:87-96 | the generated name before its extension: `person_<id>_` or `temp_`, the timestamp, `_` and the first eight characters of the uuid |
| Files.GenerateUniqueFilename | app/services/file_service.py:87-96 | the stem followed by the lower-cased suffix of the original name; Files.GeneratedNameKeepsExtension shows the extension is kept |
| Files.SaveRelative | app/services/file_service.py:132-141 | where a file is written below the upload root: the target directory, `/` and the generated name |
| Files.NamePrefix | app/services/file_service.py:93-96 | `person_<id>_` for a truthy person id, `temp_` otherwise |
| Users.IsFirstUser | app/services/user_service.py:15-16 | the first-user test holds exactly when the registry is empty |
| Users.FindByUsername | app/services/user_service.py:18-19 | a user with the name is found exactly when one exists |
| Users.FindByUsernameAppend | app/services/user_service.py:18-19 | appending a user only makes that user findable under its own name |
| Users.NextUserId | app/services/user_service.py:36-38 | a new user's key is above every stored key: 1 for an empty table, otherwise one more than the largest stored key |
| Users.CreateUser | app/services/user_service.py:21-39 | the new user gets one more than the largest stored key and stores the hash of the password, not the password, with the flags given, and is appended |
| Users.CreateUserWithDefaults | app/services/user_service.py:27-28 | without flags a user is neither admin nor active |
| Users.CreateUserWellFormed | app/services/user_service.py:21-39 | creating a user keeps ids unique and leaves a non-empty registry |
| Users.Authenticate | app/services/user_service.py:41-51 | a user is returned exactly when the name exists, the hash matches and the user is active |
| Users.CreateThenAuthenticate | app/services/user_service.py:21-51 | a new user can log in with the password exactly when created active |
| Users.WrongPasswordRefused | app/services/user_service.py:47-48 | with an injective hash a different password is refused |
| Users.AllUsers | app/services/user_service.py:53-54 | all users and only them |
| Users.ApproveUser | app/services/user_service.py:56-60 | an unknown id changes nothing; otherwise only that user becomes active, and every user keeps its key and place |
| Users.DeleteUser | app/services/user_service.py:62-66 | an unknown id changes nothing; otherwise exactly one user with the id is removed and every other user stays |
| Users.RemoveAt | app/services/user_service.py:65 | removing a position shifts the later users down by one |
| Users.DeleteUserRemoves | app/services/user_service.py:62-66 | with unique ids no user with the id remains |
| Users.DeleteUserWellFormed | app/services/user_service.py:62-66 | deleting keeps ids unique |
| Users.RemoveAtWellFormed | app/services/user_service.py:65 | removing any one user keeps ids unique |
| Users.ApproveThenAuthenticate | app/services/user_service.py:41-60 | after approval a user with the right password logs in, now active |
| Users.FindByUsernameSameNames | app/services/user_service.py:56-60 | approval does not change who is found under a name |
| Auth.Register | app/routes/auth.py:60-98 | a taken name gives 400 and no change; otherwise one user is appended, admin and active exactly when the registry was empty |
| Auth.Login | app/routes/auth.py:21-43 | a refused login gives 400 and the same session; otherwise the session holds the user's id, name and admin flag and the reply redirects home |
| Auth.Logout | app/routes/auth.py:46-49 | the session is emptied and the reply redirects home |
| Auth.RequireAdmin | app/routes/admin.py:13-17 | no user id redirects to /login whatever the admin flag; a user without the admin flag gets 403; only an admin passes |
| Auth.UsersPage | app/routes/admin.py:20-32 | the guard's refusal is returned with no users; otherwise all users |
| Auth.ApproveRoute | app/routes/admin.py:35-41 | a refused guard leaves the registry alone; otherwise the approval and a redirect to /admin/users |
| Auth.DeleteRoute | app/routes/admin.py:44-50 | a refused guard leaves the registry alone; otherwise the deletion and a redirect to /admin/users |
| Auth.FirstUserIsAdmin | app/routes/auth.py:79-86 | the first registered user can log in at once and passes the admin guard |
| Auth.LaterUserWaitsForApproval | app/routes/auth.py:79-86 | a later user is neither admin nor active and cannot log in |
| Auth.RegisterTwice | app/routes/auth.py:67-78 | registering a taken name again is refused and creates no user |
| Auth.AnonymousChangesNothing | app/routes/admin.py:39-49 | without a session user no admin action changes the registry |
| Api.HandleApiError | app/routes/api.py:29-54 | validation errors give 400, a missing person 404, storage and face-detection errors 422, anything else 500; the error type is never empty |
| Api.ErrorTypeFollowsStatus | app/routes/api.py:29-54 | each status comes with its own error type |
| Api.Respond | app/routes/api.py:69-70 | a success passes through; an error becomes its mapped HTTP error |
| Api.ClampLimit | app/routes/api.py:81 | the limit is clamped into [1, 100] |
| Api.ClampOffset | app/routes/api.py:82 | a negative offset becomes 0 |
| Api.ClampsIdempotent | app/routes/api.py:81-82 | clamping twice is clamping once |
| Api.CreatePersonRoute | app/routes/api.py:57-70 | an invalid name gives 400 before the service runs; otherwise the person is created with the name given |
| Api.GetAllPersonsRoute | app/routes/api.py:73-88 | at most 100 people, the service's page for the clamped values, never empty while rows remain |
| Api.GetPersonRoute | app/routes/api.py:91-102 | a missing person gives 404; an active photo failing the Photo schema gives 500; otherwise success, with that person and exactly their active photos |
| Api.UpdatePersonRoute | app/routes/api.py:105-126 | a given invalid name gives 400 before the service runs; a missing person 404; otherwise the update |
| Api.DeletePersonRoute | app/routes/api.py:129-140 | a missing person gives 404 and no change; a failed deletion 500 with the rows intact; success exactly when the service deletes |
| Api.AddSavedPhoto | app/routes/api.py:169-193 | a missing face gives 422 and an extractor failure 500, both without changing the store; a 512-entry embedding whose photo fails the schema gives 500 with the row committed; success appends the person's active photo with the extracted embedding and the saved path |
| Api.StorePhoto | app/routes/api.py:164-193 | a failed save gives its mapped error; otherwise the saved file is recorded as a photo |
| Api.ValidateThenStore | app/routes/api.py:159-167 | an invalid request gives 400 with nothing touched; otherwise the file is saved under the given name |
| Api.UploadPhotoRoute | app/routes/api.py:143-196 | a missing person gives 404 before anything is read or saved; otherwise validation, then saving |
| Api.NoFaceLeavesFile | app/routes/api.py:164-196 | when no face is found after the file is saved, the reply is 422 and the saved file stays on disk |
| Api.IdentifySaved | app/routes/api.py:230-242 | the handler's value after the save: the temporary file is deleted whatever happens; an invalid image gives 400; otherwise the service's identification |
| Api.SaveAndIdentify | app/routes/api.py:225-242 | the handler's value: a failed save gives its mapped error; otherwise identification on the saved file |
| Api.IdentifyRoute | app/routes/api.py:213-245 | the handler's value: an invalid request gives 400 with nothing touched; otherwise save and identify |
| Api.CheckIdentificationModel | app/routes/api.py:213 | checking the handler's value against `response_model=IdentificationResult`: a raised error passes through, a returned (result, embedding) pair fails validation and becomes a server error |
| Api.IdentifyReply | app/routes/api.py:213-245 | the HTTP reply of `/api/identify` is never a success: a handled error keeps its status and type, and a completed identification answers 500; the files are those the handler leaves |
| Api.ServerErrorIffCompleted | app/routes/api.py:213-245 | the reply is the bare server error exactly when the handler completed |
| Api.IdentifyRouteErrorsTyped | app/routes/api.py:244-245 | every error the handler raises is one produced by the error mapping |
| Api.CompletedIdentificationAnswers500 | app/routes/api.py:236-242 | a valid upload that saves, passes the image check and is identified answers 500, with the temporary file removed |
| Api.IdentifySavedRemovesFile | app/routes/api.py:240-242 | identification removes exactly the temporary file |
| Api.IdentifyLeavesNoTempFile | app/routes/api.py:225-242 | after a successful save, identification ends with the files as before, without the temporary path |
| Api.IdentifyFailedSaveFrame | app/routes/api.py:225-228 | a failed save ends in a 400 or 422 error and touches no file but the temporary path |
| Api.IdentifyPartialWriteLeavesFile | app/routes/api.py:225-228 | a write that fails after the file is created answers 422 and leaves the temporary file on disk |
| Api.StatsRoute | app/routes/api.py:248-258 | a missing person gives 404; otherwise that person's statistics |
| Web.PageNumber | app/routes/web.py:80 | pages below 1 become 1 |
| Web.PageOffset | app/routes/web.py:81-82 | the offset is (page − 1)·20, a multiple of 20 |
| Web.Fetch | app/routes/web.py:84-89 | 21 rows are asked for; there is a next page exactly when more than 20 exist past the offset; at most 20 are kept, the newest-first listing from the offset on |
| Web.PersonsListPage | app/routes/web.py:71-114 | at most 20 people with their statistics; next exactly when more remain; previous exactly when page > 1; the links are page ∓ 1 exactly then |
| Web.PersonOnItsPage | app/routes/web.py:80-89 | every person appears on the page their newest-first position falls on, at the matching slot |
| Web.PageSlot | app/routes/web.py:84-89 | slot i of a page holds the person at the page offset plus i of the newest-first listing, whenever that position exists |
| Web.PageOfPosition | app/routes/web.py:82 | the page of position k starts at k rounded down to a multiple of 20 |
| Web.NextPageIsNonEmpty | app/routes/web.py:87-111 | a page that announces a next page is followed by a non-empty one linking back |
| Web.ActiveConfidences | app/routes/web.py:187-193 | every non-null confidence of an active photo is collected |
| Web.ActiveConfidencesOfRated | app/routes/web.py:187-193 | the collected list is exactly the confidences of the active photos with a confidence, in order: one entry per such photo |
| Web.SumBounds | app/routes/web.py:195 | values in [0, 1] sum to between 0 and their count |
| Web.TrainingAverageConfidence | app/routes/web.py:191-195 | 0.0 without confidences; otherwise their mean |
| Web.SkippedPhotosIgnored | app/routes/web.py:187-195 | inactive photos and photos without confidence do not move the average |
| Web.TrainingAverageBounds | app/routes/web.py:191-195 | with confidences in [0, 1] the average is in [0, 1] |
| Web.ConfidencesInRange | app/routes/web.py:193 | collected confidences keep their range |
| Web.Sum | app/routes/web.py:195 | `sum(confidences)`, bounded by Web.SumBounds |
| Web.Rated | app/routes/web.py:188-193 | a photo whose confidence the training page averages: active, with a non-null confidence |

## Where the code and its description differ

The model follows the code in each case:

- **Deleting a person.** `delete_person` unlinks photo files one by one and raises on the first failure. The files already unlinked stay deleted; only the database rows are rolled back (`PersonService.DeletePerson`).
- **Upload failures after saving.** When face extraction or the photo insert fails after `save_uploaded_file`, the saved file stays on disk. The `if not photo` clean-up in `upload_photo` is unreachable, because the service raises rather than returning None (`Api.NoFaceLeavesFile`).
- **Unreachable identification fallback.** The final non-match return of `identify_person`, taken when the matched row is not found, cannot be reached: the winner always comes from the rows (`PersonService.MatchedRowAlwaysFound`).
- **Identification temp file after a failed save.** `save_uploaded_file` creates the file before writing it, and the identification route calls it outside its `try`/`finally`. A write or hash failure therefore leaves the temporary file on disk (`Api.IdentifyPartialWriteLeavesFile`).
- **Photos that fail the response schema.** The photo row is committed before `Photo.from_orm` checks it. A name, path or confidence outside the schema makes `add_photo_to_person` answer `DatabaseError` while the row stays stored; the upload route then answers 500 (`PersonService.AddPhotoToPerson`, `Api.AddSavedPhoto`).
- **Null confidences in a person's photos.** `get_person_with_photos` builds the response with `Photo.from_orm`, so an active photo with a null or out-of-range confidence makes reading the person answer 500 (`Api.GetPersonRoute`).
- **Names are stored unstripped.** Validation judges the stripped name, but the unstripped name is stored.
- **Statistics with a null confidence.** A null confidence on an active photo makes `sum` raise. `get_person_stats` then returns all zeros, including the photo counts (`PersonService.StatsNullConfidence`).
- **Identification always answers 500.** `identify_person` returns a pair `(IdentificationResult, embedding)` on every path, and the route returns it unchanged under `response_model=IdentificationResult`. Response validation rejects the pair, so every completed identification, match or not, answers 500; the temporary file is still removed (`Api.IdentifyReply`, `Api.CompletedIdentificationAnswers500`).
- **Missing user class.** `app/services/user_service.py` imports a `User` class that `app/models/database.py` does not define. Its shape is taken from `app/models/user.py` plus the `password_hash` column.

## Left out

- Cosine similarity, numpy arithmetic, float32 conversion, and NaN for zero-norm vectors. Similarity is a parameter of real values.
- Face extraction, the insightface model, its singleton and lock, and the debug image write. They are a parameter.
- The MIME guess (`mimetypes.guess_type`). It is a predicate parameter.
- SHA-256 and md5 hashing. The password hash is a function parameter; the file hash is not modelled.
- Pickle serialisation. A stored embedding is either a decoded vector, a null or an undecodable blob.
- SQLAlchemy sessions, commit and rollback. Every service call is atomic on the immutable store.
- `updated_at` columns. No operation's outcome depends on them.
- `cleanup_temp_files`. It depends on file modification times.
- Directory creation (`mkdir`). The file system is a set of paths.
- Templates, rendered messages and error texts. Only status codes, error types and template names are kept.
- Pydantic request-body validation in FastAPI. The routes receive already-typed values.
- The photo deactivation route. `deactivate_photo` is called but not defined in the service.
- The health and system-statistics routes, and the non-list web pages apart from the training page's average confidence (`Web.TrainingAverageConfidence`). They are reporting only.
- Api.StatsRoute: answers the service's statistics as they are; `PersonStats(**stats)` keeps only the four declared fields and drops `preview_photo`, and that projection is not modelled.
- Api.UploadPhotoRoute: answers the stored photo row; the reply body, which carries five of its fields, is not modelled. Throughout, a route's success value is the service value before the response schema.
- The error branch of `persons_list_page`. The model's store reads do not fail.
- Path normalisation by `pathlib` beyond the final component. Inputs are plain relative names.
- `Path` components are taken by splitting on `/`, skipping empty and `.` parts. Backslashes are ordinary characters, as on POSIX.
- Python's `lower` on non-ASCII text. `Lower` maps only ASCII letters; `Strip` removes the characters `str.isspace` accepts.
- Api.IdentifyReply: the body of the 500 reply, which Starlette sends as plain text, is not modelled; only its status is.
- PersonService.Identify: the real-valued similarity stands for the float the matcher returns; rounding is not modelled.
- PersonService.AddPhotoKeepsColumnsFit: says nothing after a `DatabaseError` from the schema check, because the committed row may then hold a name or path longer than its column.
- Common.NextKey: once the largest key reaches 2^63 - 1, SQLite picks an unused key at random; the model's keys are unbounded and always one more than the largest.
- Ties in `ORDER BY created_at DESC`: SQLite does not promise an order for rows of the same second; the model fixes it as ascending id.
