# ClosetMate wardrobe and image services in Dafny

This project models the clothing-item core of the ClosetMate backend. The
core has three parts:

- **The wardrobe service.** It normalises seasons with `validate_season`.
  Its handlers `get_all_items` and `get_item` only read the
  `clothing_items` table. `create_item`, `update_item` and `delete_item`
  run the cross-service write: they call the image service first, then
  write the table.
- **The image service.** `validate_image_file` checks the upload.
  `process_image` stores the original and the background-free PNG.
  `delete_image` removes the original and/or processed file named after a
  stem.
- **The `ClothingItem` row.** This covers its column limits, the
  `SeasonEnum` values and `to_dict`.

Each service's state is a `class` whose methods change it in place:

- `ImageService.Storage` holds the storage directory as a map from
  (area, name) to bytes.
- `Wardrobe.ItemStore` holds the table as a map from id to row.

Every method but one is proved equal to a specification function:

- `ProcessReplyFor` and `FilesAfterProcess`;
- `DeleteReplyFor` and `FilesAfterDelete`;
- `CreateOutcome`, `UpdateOutcome` and `DeleteOutcome`;
- `GetItemReply`.

`GetAllItems` has a relational contract instead, because equal
`created_at` values leave the order open: it lists every row once, as
`to_dict`, in an order that `ListedBefore` allows.

The lemmas about those functions, in `ImageServiceFacts`, `WardrobeFacts`
and `EndToEnd`, state what the services promise.

Things the Python gets from its runtime are written out:

- `str.lower`, `pathlib` `suffix`/`stem`/`name`, `str(uuid)` and
  `UUID(text)` are in `Text` and `Uuids`;
- `datetime.isoformat` is in `Timestamps`;
- PostgreSQL's column checks are in `Models.ColumnError`: a `VARCHAR(n)`
  value longer than `n` is cut to `n` when every excess character is a
  space and refused otherwise, a string holding NUL is refused by the
  driver, and `file_size` must fit a 32-bit `INTEGER`. `Models.Stored` is
  the row the table then holds.

Each call to the other service becomes an input:

- for the image service, `Call<T>` is either the decoded answer or an
  `httpx.RequestError`;
- for the background removal, `Removal` is either the PNG bytes or an
  exception;
- for unlink failures, `faulty` is a map from file to exception text.

UUID generation and `datetime.utcnow` are inputs too: `newId`, `fileId`
and `now`.

Some behaviours of the code worth knowing, which the model keeps:

- **Update with a new image.** The old files' deletion is sent first. A
  `RequestError` from that request ends `update_item` with 503 before
  processing, and nothing is committed.
- **A failed new image** also drops the name and season edits made in the
  same request: the handler returns before `db.commit()`.
- **Lookups** filter by id only. The model has no owner.
- **The default** name and season are spelled "Untitled".

## Model

| member | source | states |
|---|---|---|
| Wardrobe.FirstSeasonMatch | backend/wardrobe_service/main.py:66-70 | the scan returns a listed season equal to the input ignoring case, or "Untitled" |
| Wardrobe.ValidateSeason | backend/wardrobe_service/main.py:59-70 | the result is always one of Spring, Summer, Fall, Winter, Untitled |
| Wardrobe.ValidSeasonsAreSeasonEnum | backend/wardrobe_service/main.py:64 | the list `validate_season` accepts is exactly the `SeasonEnum` values, in order |
| Wardrobe.ValidateSeasonCanonical | backend/wardrobe_service/main.py:66-68 | any casing of a valid season maps to its canonical spelling |
| Wardrobe.ValidateSeasonExactly | backend/wardrobe_service/main.py:59-70 | the result is a given real season iff the input equals it ignoring case; it is "Untitled" iff no real season matches (absent and empty included) |
| Wardrobe.ValidateSeasonIdempotent | backend/wardrobe_service/main.py:59-70 | normalising twice equals normalising once |
| Wardrobe.ValidateSeasonIgnoresCase | backend/wardrobe_service/main.py:67 | inputs equal ignoring case normalise alike |
| Wardrobe.LatestExists | backend/wardrobe_service/main.py:82 | any non-empty set of rows has one that `ORDER BY created_at DESC` (NULLs first) may list before all others |
| Wardrobe.ItemStore.GetAllItems | backend/wardrobe_service/main.py:79-86 | lists every row exactly once, as `to_dict`, newest `created_at` first with NULLs first; changes nothing |
| Wardrobe.ItemStore.GetItem | backend/wardrobe_service/main.py:89-105 | the response is `GetItemReply`: 400 INVALID_INPUT for a malformed id, 404 ITEM_NOT_FOUND for an unknown one, else the row's `to_dict` |
| Wardrobe.ItemStore.CreateItem | backend/wardrobe_service/main.py:108-183 | the response, new table and requests sent are `CreateOutcome` of the old table; the table stays well keyed |
| Wardrobe.ItemStore.UpdateItem | backend/wardrobe_service/main.py:186-279 | the response, new table and requests sent are `UpdateOutcome` of the old table; the table stays well keyed |
| Wardrobe.ItemStore.ReplaceImage | backend/wardrobe_service/main.py:217-265 | the new-image branch: the old files' deletion, then processing, then the commit, as `ReplaceImageOutcome` |
| Wardrobe.ItemStore.Commit | backend/wardrobe_service/main.py:264-279 | the commit, as `CommitUpdate`: a changed row gets `updated_at = now`; a row that cannot be written is rolled back with 500 |
| Wardrobe.ItemStore.DeleteItem | backend/wardrobe_service/main.py:282-328 | the response, new table and requests sent are `DeleteOutcome` of the old table, whatever the image service answers |
| WardrobeFacts.ValidateSeasonDefaults | backend/wardrobe_service/main.py:61-62 | an absent or empty season is the `season` column's default "Untitled", an absent or empty name the `item_name` column's default "Untitled"; every season result is a `SeasonEnum` value |
| WardrobeFacts.ValidatedSeasonFits | backend/shared/models.py:26 | every season `validate_season` returns fits the `VARCHAR(50)` column uncut |
| WardrobeFacts.GetItemByPrintedId | backend/wardrobe_service/main.py:92-105 | `get_item` on the id `to_dict` printed returns that row |
| WardrobeFacts.UnaddressableIdChangesNothing | backend/wardrobe_service/main.py:92-100 | get, update and delete answer INVALID_INPUT (400) or ITEM_NOT_FOUND (404), send nothing and leave the table unchanged |
| WardrobeFacts.CreateFailureAddsNothing | backend/wardrobe_service/main.py:141-155 | an unreachable image service gives 503 SERVER_ERROR; a refusal gives 400 with its code and message or PROCESSING_FAILED / "Image processing failed"; no row is added |
| WardrobeFacts.CreateAddsOneRow | backend/wardrobe_service/main.py:158-183 | success iff the id is new and the row can be written; then exactly one row is added, its four image fields all come from the one reply (the file name as its column holds it), the name falls back to "Untitled" and is held as its `VARCHAR(255)` column keeps it, the season is normalised, both timestamps are `now`; otherwise 500 and the table is unchanged |
| WardrobeFacts.CreateThenGet | backend/wardrobe_service/main.py:172-175 | after a successful create, `get_item` on the printed id returns the same body |
| WardrobeFacts.CreateThenDeleteRestoresTable | backend/wardrobe_service/main.py:282-315 | deleting, by its printed id, the item a successful create added restores the table and sends the deletion of the stored `file_name` with `type=both` |
| WardrobeFacts.ReplaceImageCommitsOrAborts | backend/wardrobe_service/main.py:217-265 | the new-image branch either commits the edited row with all four image fields from the one successful reply, or ends with an error and an unchanged table |
| WardrobeFacts.CommitUpdateRewritesOneRow | backend/wardrobe_service/main.py:264-279 | the commit succeeds iff the edited row can be written; it then rewrites only that row, as the table stores it, with `updated_at = now` exactly when an assigned value changed; otherwise it rolls back with 500 |
| WardrobeFacts.UpdateCommitsOrAborts | backend/wardrobe_service/main.py:210-279 | update of an existing row either ends with an error and the table unchanged, or commits the row with the supplied name, the normalised season and, after a successful processing, the reply's image fields |
| WardrobeFacts.UpdateStampsOnlyOnChange | backend/wardrobe_service/main.py:264-266 | `updated_at` stays or becomes `now` only on a successful commit; it becomes `now` whenever another column changed; a request that supplies nothing leaves the row as it was |
| WardrobeFacts.UpdateTouchesOneRow | backend/wardrobe_service/main.py:200-279 | update leaves every other row alone and keeps the key set; any error response commits nothing |
| WardrobeFacts.UpdateChangesOnlySupplied | backend/wardrobe_service/main.py:211-252 | name and season change only when supplied and committed (season normalised, name as its column holds it); the four image fields change only together, only after a successful processing, all from that reply; `created_at` never changes |
| WardrobeFacts.UpdateDeletesFilesBeforeProcessing | backend/wardrobe_service/main.py:217-262 | the old files' deletion is sent first; a processing failure leaves the row naming those files; an unreachable service at that first request ends update with 503, while delete still removes the row |
| WardrobeFacts.DeleteRemovesOneRow | backend/wardrobe_service/main.py:300-320 | delete removes exactly that row, sends the files' deletion iff `file_name` is set, succeeds regardless, and the id is then unknown |
| EndToEnd.DeletePairRemovesBoth | backend/image_processing_service/main.py:160-182 | a `type=both` delete of `{stem}.png`, with one original under the stem, removes and reports exactly the original and the PNG |
| EndToEnd.ProcessThenDeleteRestores | backend/image_processing_service/main.py:99-182 | process returns `file_name = {id}.png`; deleting it with `type=both` removes and reports exactly the two stored files; for a fresh id the directory is as before |
| EndToEnd.ItemLifecycleRestoresStorage | backend/wardrobe_service/main.py:300-307 | process, create, then delete by the printed id: the table is as before, the delete request names the stored file, and the directory is restored |
| EndToEnd.FailedUpdateLeavesDanglingRow | backend/wardrobe_service/main.py:219-245 | after an update whose processing fails, the row still names the old file while its processed image has been deleted |
| ImageService.ValidateImageFile | backend/image_processing_service/main.py:57-66 | no error iff a filename is given and its lower-cased suffix is .jpg, .jpeg, .png or .webp; "No filename provided" when it is missing |
| ImageService.FirstOriginalFinds | backend/image_processing_service/main.py:165-173 | the original found is the first extension in iteration order under which a file exists |
| ImageService.Storage.ProcessImage | backend/image_processing_service/main.py:75-135 | the response and new directory are `ProcessReplyFor` and `FilesAfterProcess` of the old directory |
| ImageService.Storage.DeleteImage | backend/image_processing_service/main.py:138-195 | the response and new directory are `DeleteReplyFor` and `FilesAfterDelete` of the old directory |
| ImageService.Storage.DeleteOriginal | backend/image_processing_service/main.py:162-173 | the loop with `break` unlinks the first original found in iteration order, or records its error, as `SweepOriginal` |
| ImageService.Storage.DeleteProcessed | backend/image_processing_service/main.py:175-182 | unlinks `{stem}.png` if present, or records its error, as `SweepProcessed` |
| ImageServiceFacts.AllowedExtensionShape | backend/image_processing_service/main.py:21 | every allowed extension is a dot followed by lower-case letters |
| ImageServiceFacts.StoredNamesSplit | backend/image_processing_service/main.py:100-102 | a stored name `{file_id}{ext}` has stem `file_id` and suffix `ext` |
| ImageServiceFacts.ProcessSizeBound | backend/image_processing_service/main.py:91-95 | a valid upload is refused with FILE_TOO_LARGE iff it exceeds 5*1024*1024 bytes, and then nothing is stored |
| ImageServiceFacts.ProcessRejectsInvalidFile | backend/image_processing_service/main.py:83-85 | a missing name or a disallowed suffix gives 400 INVALID_FILE_TYPE and stores nothing |
| ImageServiceFacts.ProcessStoresPair | backend/image_processing_service/main.py:99-127 | success stores the upload as `{id}{ext}` and the PNG as `{id}.png`, and replies with both URLs, `file_name = {id}.png` and the PNG's size |
| ImageServiceFacts.ProcessFailureLeavesOriginal | backend/image_processing_service/main.py:104-135 | a failed background removal gives 500 PROCESSING_FAILED but leaves the original stored |
| ImageServiceFacts.RelativePathInjective | backend/image_processing_service/main.py:170-180 | distinct stored files are reported under distinct `original/...` / `processed/...` paths |
| ImageServiceFacts.DeleteReportsRemovals | backend/image_processing_service/main.py:156-195 | a success lists exactly the removed files; a 500 means nothing was removed; no file is added or altered |
| ImageServiceFacts.DeleteFailsExactly | backend/image_processing_service/main.py:150-189 | the reply is an error iff `type` is unknown (400) or at least one file is addressed and every addressed file's unlink fails (500) |
| ImageServiceFacts.DeleteRemovesOnlyAddressed | backend/image_processing_service/main.py:150-182 | only `{stem}.png` and the first original found can go; an unknown `type` gives INVALID_INPUT and changes nothing |
| ImageServiceFacts.DeleteAbsentSucceeds | backend/image_processing_service/main.py:184-195 | deleting absent files succeeds with an empty `deleted` list and changes nothing |
| ImageServiceFacts.SettledDeleteIsNoop | backend/image_processing_service/main.py:160-182 | when every addressed file still present is one whose unlink fails, a delete removes nothing |
| ImageServiceFacts.DeleteSettles | backend/image_processing_service/main.py:160-182 | with at most one original under the stem, a delete leaves only addressed files whose unlink fails |
| ImageServiceFacts.DeleteRepeatable | backend/image_processing_service/main.py:160-182 | with at most one original under the stem, a repeated delete changes nothing more |
| ImageServiceFacts.FirstOriginalUnique | backend/image_processing_service/main.py:165-173 | when exactly one extension has an original, the search finds it |
| Models.VarcharCuts | backend/shared/models.py:25-29 | a `VARCHAR(n)` column takes a value iff it is at most `n` characters or every character past `n` is a space; it then holds the value cut to at most `n` characters, a prefix that drops only spaces, and the value itself when it already fits |
| Models.ColumnErrorExactly | backend/shared/models.py:24-30 | a row can be written iff no string column holds NUL, `item_name`, `season` and `file_name` fit their `VARCHAR(255)`/`VARCHAR(50)`/`VARCHAR(255)` once excess spaces are cut, and `file_size` is a 32-bit integer |
| Models.ColumnErrorIgnoresTimestamps | backend/shared/models.py:31-32 | the `DateTime` columns never make a write fail, and stamping `updated_at` changes nothing else in the stored row |
| Models.FitsAreWritable | backend/shared/models.py:24-30 | a row already within every column limit can be written |
| Models.StoredFits | backend/wardrobe_service/main.py:168-174 | the row the table holds after `commit` and `refresh` fits every column, differs from the written one only by the cut `VARCHAR` values, and equals it when it already fit |
| Models.ColumnLimitsByExample | backend/shared/models.py:25 | a 300-character name ending in 295 spaces is stored as its first 255 characters; a name holding NUL is refused |
| Models.ToDict | backend/shared/models.py:34-45 | the printed `id` is 36 characters; each timestamp is rendered iff the column is set |
| Models.RenderTimestamp | backend/shared/models.py:43-44 | an absent timestamp is None; otherwise its ISO form plus "Z" (20 or 27 characters) |
| Models.RenderTimestampInjective | backend/shared/models.py:43-44 | distinct timestamps render differently |
| Models.ToDictIdParses | backend/shared/models.py:36 | the printed `id` parses back to the row's id |
| Models.ToDictInjective | backend/shared/models.py:34-45 | `to_dict` loses nothing: distinct rows give distinct dictionaries |
| Uuids.Parse | backend/wardrobe_service/main.py:92-95 | a text shorter than 32 characters is never a UUID, whatever its prefixes and braces |
| Uuids.ParseFormat | backend/wardrobe_service/main.py:92-95 | `UUID(str(u)) == u` |
| Uuids.FormatShape | backend/image_processing_service/main.py:99 | `str(uuid)` is 36 characters of lower-case hex digits and hyphens |
| Uuids.FormatInjective | backend/image_processing_service/main.py:99-102 | distinct file ids give distinct stored names |
| Timestamps.IsoformatLayout | backend/shared/models.py:43-44 | `isoformat` is 19 characters, or 26 when microseconds are non-zero: the date, `T`, the clock, then `.ffffff` only for non-zero microseconds |
| Timestamps.IsoDateLayout | backend/shared/models.py:43-44 | the date is `YYYY-MM-DD`, each field zero-padded at a fixed position |
| Timestamps.IsoClockLayout | backend/shared/models.py:43-44 | the clock is `HH:MM:SS`, each field zero-padded at a fixed position |
| Timestamps.IsoformatInjective | backend/shared/models.py:43-44 | distinct timestamps have distinct ISO forms |
| Text.StemSuffixSplit | backend/image_processing_service/main.py:62 | `stem + suffix` is the file name; the suffix is empty or a dot with no later dot |
| Text.StemOfPlainName | backend/image_processing_service/main.py:160 | the stem of `{base}{ext}` is `base` when `base` has no dot or slash |

## Left out

- HTTP plumbing is not modelled. This covers FastAPI routing, form and multipart parsing, CORS, the health endpoints, the `/storage` static mount and uvicorn start-up.
- The API gateway, the seed scripts, `schemas.py` and `database.py` are not part of this model.
- Background removal with `rembg` and PIL, and the PNG encoding, are foreign libraries. They become the `Removal` input. The processed size is the PNG's length, as the file's `st_size` would be.
- The real filesystem becomes a map from (area, name) to bytes. An unlink failure is the `faulty` map.
- ImageService.Storage.ProcessImage: only the background removal can fail after the original is written. A failing write of the original itself is not modelled.
- `httpx` calls, their timeouts and async scheduling are not modelled. Each call is an input: an answer or a `RequestError`. Concurrency between requests is not modelled.
- The wardrobe reads the processor's JSON body whatever its HTTP status. Any exception other than `RequestError` is not modelled. Examples are invalid JSON and a missing `data` key; in the code these escape as a framework 500.
- Wardrobe.ItemStore.DeleteItem: the 500 "Failed to delete item" branch is not modelled. In the column model a delete of an existing row cannot fail, since the shown schema has no foreign keys.
- Wardrobe.ItemStore.CreateItem: `created_at` and `updated_at` are both set to one `now`. The code evaluates `datetime.utcnow` once per column, so the two may differ by microseconds.
- Error texts from the database driver are stand-ins. They carry the PostgreSQL meaning, not the driver's exact wording.
- Wardrobe.ValidateSeason: `str.lower` is modelled for ASCII letters only. This is exact for the season names and the allowed suffixes. Non-ASCII case mappings are left out.
- Uuids.Parse: follows `uuid.UUID(hex)` as far as its own normalisation goes. That means the `urn:`/`uuid:` prefixes, braces, hyphens and 32 hex digits. Python `int(hex, 16)`'s extra leniency is left out: surrounding whitespace, an optional `+` sign, a `0x`/`0X` prefix, underscores and non-ASCII digits.
- UUID generation and the clock are inputs (`newId`, `fileId`, `now`), not random or real time.
- The iteration order of the `ALLOWED_EXTENSIONS` set is the fixed `extensionOrder` of a `Storage`. It is any order that lists each extension once.
- Wardrobe.ItemStore.GetAllItems: the order of rows with equal `created_at` is not promised, and the model does not fix one.
- Per-user ownership, authentication, password reset and sessions are not modelled. The code has none of these for items.
