# Library catalogue bookkeeping, in Dafny

This project models the bookkeeping core of a small library catalogue service.
The service is a Go HTTP API over PostgreSQL. It stores books, authors and the
links between them. Each author row carries a reference count,
`books_authored`, that the service keeps by hand in every mutation.

The catalogue is an abstract store (`Store.State`) with these parts:
- `books`: numeric id to row. A row holds the content key (`book_id`, the
  SHA-1 of the title), the title, publisher, year, page count, genres and version.
- `authors`: content key (the SHA-1 of the upper-cased name) to
  `(id, name, books_authored)`.
- `links`: a set of (book key, author key) pairs.
- The next values of the two id sequences.

Each SQL statement of a mutation is a pure step that returns `Ok(state)` or
`Err(error)`. A mutation is those steps composed. The handlers commit only when
every step succeeds and otherwise roll back. SHA-1 is a function parameter `H`.
Where a proof needs injectivity, a contract states it (`InjectiveOn` in `Base`,
`CollisionFree` in `Handlers`). The current year is a parameter, not a clock reading.

The central invariant is `Store.Consistent`, which holds five conditions:
- Every author's count equals the number of books linked to it.
- Every link resolves to a book and an author.
- Book keys are unique.
- Author ids are unique.
- Both id sequences are ahead of every id handed out.

The model proves where each mutation keeps this invariant. It also shows, with
concrete stores, three places where the code as written breaks it: deleting a
book with two authors, retitling a book to another book's title, and naming an
author twice in a patch. Each has a corrected definition, proved to keep the
invariant. It further shows that the patch handler as written can never take
an author away from a book: what it reads back from the decrement statement
cannot be decoded, so every patch that drops a stored name is rolled back.
The handlers are modelled over the code as written, and the corrected
handlers sit beside them under their own names.

Modules, following the source files:
- `Base`: byte strings, `Option`/`Result`, sequence and set helpers.
- `Validation`: the validator (`Check`, `Valid`) and the entry validation shared
  by create and update.
- `Helper`: `ToUpper`, `FindDiffOneInTwo` and the query-string readers.
- `Filters`: `ValidateFilters`, `DiffArrays` and `HashArrays`.
- `Store`: the store, the invariant and the author-ledger statements.
- `Create`, `Update`, `Delete` and `Read`: the four model files.
- `Handlers`: the three mutating handlers, and the corrected delete and patch handlers.

Unspecified orders are modelled as "some order", via `Base.Enumerate` or a
choice. These are the order of Go map iteration, of an `array_agg` without
`ORDER BY`, and of the first row `QueryRow` returns. Only what holds for every
such order is stated.

## Model

| member | source | states |
|---|---|---|
| Validation.CheckBook | backend/internal/Books/create.go:65-127 | The thirteen book checks leave the log unchanged exactly when the title and publisher are 1..300 bytes, the year is non-zero and within 1900..current year, pages are within 1..10000, and genres are present with 1..5 entries. They record only book-field keys. |
| Validation.BookChecksMeaning | backend/internal/Books/create.go:65-127 | All thirteen checks pass iff the book half meets those bounds. None of them uses the "authors" or "author_items" key. |
| Validation.CheckAuthorCount | backend/internal/Books/create.go:134-146 | The log is unchanged iff the author list is non-nil with 1..5 entries. |
| Validation.CheckItems | backend/internal/Books/create.go:152-164 | The per-name loop accepts iff the incoming log was clean and every name is 1..100 bytes. On acceptance the log is unchanged, and the loop only ever appends to the log. |
| Validation.CheckItemsFromClean | backend/internal/Books/create.go:152-164 | On a clean log the per-name loop accepts iff every name is 1..100 bytes. Otherwise it records exactly one message, for the first bad name, and stops there. |
| Validation.ValidateFields | backend/internal/Books/create.go:63-167 | Valid iff the incoming log was clean, the book half is acceptable and the authors are acceptable. A failing book half records no author key. The first bad name yields exactly one "author_items" error. |
| Validation.CheckItemsByLength | backend/internal/Books/create.go:152-164 | The name loop's verdict and log depend only on each name's length and emptiness. |
| Helper.ToUpper | backend/config/helper.go:49-58 | Keeps the length. Byte i of the result is byte i upper-cased if it is in 'a'..'z', else unchanged. |
| Helper.ToUpperNormalises | backend/config/helper.go:49-58 | The result contains no ASCII lower-case letter. A string without one is returned unchanged, so `ToUpper` is idempotent. |
| Helper.ToUpperChangesOnlyLetters | backend/config/helper.go:52-55 | A byte changes iff it is a lower-case letter, and it then becomes the matching letter in 'A'..'Z'. A non-empty string stays non-empty. |
| Helper.Without | backend/config/helper.go:60-74 | The multiplicity of each item is 0 if the item is dropped, else its multiplicity in the input. |
| Helper.WithoutEmpty | backend/config/helper.go:60-74 | The difference is empty iff every item of the second list is in the first. |
| Helper.FindDiffOneInTwo | backend/config/helper.go:60-74 | Returns exactly the items of `list2` not in `list1`, in `list2` order, with duplicates kept. The loops carry the invariants. |
| Helper.ReadString | backend/config/helper.go:11-20 | Returns the default iff the looked-up value is empty, and the value itself otherwise. |
| Helper.ReadStringRoundTrip | backend/config/helper.go:11-20 | A present non-empty value reads back unchanged whatever the default. An absent key reads as the default. |
| Helper.Split | backend/config/helper.go:22-30 | At least one piece, none containing the separator. |
| Helper.JoinSplit | backend/config/helper.go:22-30 | Splitting and re-joining with the separator gives the original text. |
| Helper.SplitJoin | backend/config/helper.go:22-30 | Joining separator-free pieces and splitting again gives the pieces back. |
| Helper.ReadCSV | backend/config/helper.go:22-30 | The default on an empty value. Otherwise comma-free pieces that re-join with ',' to the value. |
| Helper.Atoi | backend/config/helper.go:40 | Parses iff the text is an optional sign followed by one or more decimal digits whose signed value lies in the 64-bit range. The value is that of the digits, negated after a minus. |
| Helper.DigitsValueOf | backend/config/helper.go:40 | The decimal digits of n, as `Digits` writes them, have the value n. |
| Helper.AtoiFormat | backend/config/helper.go:40 | Every integer in the 64-bit range, written in decimal with a minus when negative, is parsed back to itself. |
| Helper.ReadIntRoundTrip | backend/config/helper.go:32-47 | An in-range integer written under the key reads back as itself with no error recorded, whatever the default. |
| Helper.ReadInt | backend/config/helper.go:32-47 | The default with an unchanged log on an empty value. The default plus one error on a non-integer. Otherwise the parsed value. |
| Helper.ReadIntErrorMeansDefault | backend/config/helper.go:32-47 | A recorded error means the value was present but not an integer, and the default was returned. |
| Filters.ValidateFilters | backend/internal/filters.go:18-39 | As written: valid iff the log was clean, 0 < Page <= 1000000, and Sort is in the safe list. |
| Filters.ValidateFiltersIgnoresPageSize | backend/internal/filters.go:29-34 | The page size never changes the verdict. A page size of 1000000 is accepted. |
| Filters.ValidateFiltersIntended | backend/internal/filters.go:29-34 | Valid iff, additionally, 0 < PageSize <= 30. With a valid page and sort, the verdict is exactly the page-size bound. |
| Filters.InterleavesCounts | backend/internal/filters.go:54-64 | Routing every new name to one of two outputs accounts for each name exactly once, in length and in multiset. |
| Filters.ScanNew | backend/internal/filters.go:54-64 | The scan keeps its invariant. Each name goes to `common` iff it is still in the presence map, and a matched name leaves the map. |
| Filters.DiffArrays | backend/internal/filters.go:42-72 | `newArr` is `common` and `exclusiveNew` interleaved, in order. `common` is duplicate-free and equals old ∩ new. `exclusiveOld` is duplicate-free and equals old − common. Each name occurs in `exclusiveNew` as often as in `newArr`, one fewer if it is both old and new. |
| Filters.DiffRoutesEveryName | backend/internal/filters.go:54-64 | `|common| + |exclusiveNew| == |newArr|`, and their multisets add up to `newArr`'s. |
| Filters.DiffPartitionsOld | backend/internal/filters.go:48-69 | `common` and `exclusiveOld` are disjoint and together make up the old names. `exclusiveOld` is old − new. |
| Filters.DiffOnDistinctNew | backend/internal/filters.go:55-63 | For duplicate-free `newArr`, `exclusiveNew` is duplicate-free and is exactly new − old, and common ∪ exclusiveNew is new. |
| Filters.DiffRepeatedOldName | backend/internal/filters.go:55-63 | An old name sent twice goes once to `common` and once to `exclusiveNew`. |
| Filters.DiffReplaced | backend/internal/filters.go:42-72 | Diffing `[a]` against a different `[b]` leaves `a` exclusive to the old list and `b` to the new. |
| Filters.DiffSame | backend/internal/filters.go:42-72 | For duplicate-free `a`, diffing `a` against itself gives `common == a` and both exclusive lists empty. |
| Filters.HashArrays | backend/internal/filters.go:74-94 | Both outputs have their inputs' lengths, and element i is `H` of input element i. |
| Store.UpsertAll | backend/internal/Books/create.go:200-214 | The keys become old ∪ listed. A listed key gains 1, or gets a new row with count 1, the next id and its name. Old rows keep id and name. Unlisted rows are unchanged. The id sequence advances once per listed key. |
| Store.Upsert | backend/internal/Books/create.go:200-214 | Fails, with a "row affected twice" error, iff a key is listed twice. |
| Store.DecrementAll | backend/internal/Books/update.go:132-142 | Takes exactly one off every row whose key is listed. Keys, ids and names are unchanged. |
| Store.UpsertKeepsIds | backend/internal/Books/create.go:200-214 | The upsert keeps author ids unique and below the sequence. |
| Store.AddBookKeepsKeys | backend/internal/Books/create.go:174-199 | Adding a row with a fresh key and a fresh id keeps book keys unique, and the key set grows by that key. |
| Store.ReplaceBookKeepsKeys | backend/internal/Books/update.go:65-98 | Rewriting a row under its own key or a free key keeps book keys unique, and swaps the row's key in the key set. |
| Store.RemoveBookKeys | backend/internal/Books/delete.go:63-80 | Removing a row keeps book keys unique and removes exactly that row's key. |
| Store.BooksOfRelink | backend/internal/Books/update.go:156-197 | After deleting a book's links and linking it to a set of authors, each author's linked-book count moves by exactly the link it gained or lost. |
| Store.RelinkKeepsCounts | backend/internal/Books/update.go:156-197 | If each count moved by +1 for a listed author and −1 for a formerly linked one, counts still equal link counts after the relink. |
| Store.AuthorsOfRelink | backend/internal/Books/update.go:156-197 | Deleting a book key's links and linking it to a set of authors leaves that key linked to exactly that set, and every other key linked as before. |
| Store.RelinkKeepsResolve | backend/internal/Books/update.go:156-197 | After the relink every link still names an existing book and author. |
| Create.HashEntries | backend/internal/Books/create.go:41-61 | The book key is `H(title)`. The author keys list is as long as the names, with key i equal to `H(name i)`. Nothing else changes. |
| Create.HashEntriesKeys | backend/internal/Books/create.go:41-61 | The author keys are the image of the names. They are distinct when the names are distinct and `H` is injective on them. |
| Create.ValidateEntry | backend/internal/Books/create.go:63-167 | Valid iff the book and author bounds hold. A failing book half records no author error. |
| Create.Insert | backend/internal/Books/create.go:173-249 | Fails iff the title key or the next id is taken, or an author key repeats. On success: exactly one new book row, with the given fields, under the title key and the next id. Author rows are created or incremented per listed key, and others are untouched. Links are the old ones plus (book key, k) for every author key k. |
| Create.InsertPreservesConsistency | backend/internal/Books/create.go:200-239 | A successful insert keeps the catalogue consistent. |
| Create.InsertRejectsTakenKeys | backend/internal/Books/create.go:173-214 | A taken title key or a repeated author key makes the insert fail. |
| Update.HashEntries | backend/internal/Books/update.go:36-58 | The book key becomes `H(title)`. Author key i is `H(name i)`, with equal lengths. |
| Update.ValidateEntry | backend/internal/Books/update.go:201-305 | With every field set, the same verdict and short cuts as on create. |
| Update.Rewritten | backend/internal/Books/update.go:65-70 | The rewritten row takes title, publisher, year, page count and genres from the entry (no genres becomes none), its version goes up by one, and it keeps its stored key. |
| Update.UpsertStep | backend/internal/Books/update.go:100-130 | Runs only for a non-empty `exclusiveNew`. Fails iff a key repeats, and otherwise creates or increments each listed author. |
| Update.DecrementStep | backend/internal/Books/update.go:132-154 | The decrement statement's effect, and the corrected read-back: runs only for a non-empty `hashOld`. It is an edit conflict iff no author row matches. Otherwise every matching row loses one. |
| Update.DecrementScanned | backend/internal/Books/update.go:132-154 | As written, read-back included: succeeds, changing nothing, iff `hashOld` is empty. A non-empty `hashOld` is an edit conflict when no author row matches and a decode failure otherwise. |
| Update.DecrementScannedDiverges | backend/internal/Books/update.go:132-154 | The two agree when `hashOld` is empty or matches no row. When it matches a row, the statement succeeds and the read-back fails. |
| Update.UpdateScanned | backend/internal/Books/update.go:64-199 | As written, read-back included: it commits only with an empty `hashOld`, and then it is `Update`. Every update that `Update` would commit with a non-empty `hashOld` fails with the decode error. An id with no book is an edit conflict. |
| Update.Update | backend/internal/Books/update.go:64-199 | As written, by the statements' effect on the tables: an edit conflict when the id names no book. On success the row gets the new fields and version + 1 but keeps its stored key. The ledger moves by `hashNew` and `hashOld`. Links under the new title's key are replaced, which requires some to exist. |
| Update.UpdateRetitleFails | backend/internal/Books/update.go:156-176 | As written, a title whose key no book holds always makes the update fail. |
| Update.UpdateKeptKeyIsRekeyed | backend/internal/Books/update.go:64-199 | While the title key is unchanged, the code as written and the corrected update are the same transition. |
| Update.UpdateKeptTitleKeepsConsistency | backend/internal/Books/update.go:100-197 | As written, an update with an unchanged title keeps the catalogue consistent if the ledger lists fit the links. |
| Update.UpdateRetitleCorruptsLinks | backend/internal/Books/update.go:156-197 | A concrete consistent store where retitling book X to book Y's title is accepted as written and leaves the catalogue inconsistent. The corrected update refuses it. |
| Update.UpdateRekeyed | backend/internal/Books/update.go:64-199 | Corrected: the row takes its new title's key. A key held by another book is a unique violation. The links under the stored key are replaced by links under the new key. The ledger is as written. |
| Update.UpdateRekeyedSucceeds | backend/internal/Books/update.go:64-199 | For an existing id, success iff all of these hold: the new key is free or the book's own, the new author keys are distinct, a non-empty `hashOld` meets some author row (existing or just upserted), and the book had links. |
| Update.UpdateRekeyedMovesKey | backend/internal/Books/update.go:156-197 | After success the book sits under its new key, linked to exactly the new author keys, with nothing left under an abandoned key. |
| Update.UpdateRekeyedKeepsConsistency | backend/internal/Books/update.go:100-197 | If `hashNew` is the new keys not yet linked and `hashOld` the linked keys no longer named, a successful update keeps the catalogue consistent. |
| Update.UpdateKeepsIds | backend/internal/Books/update.go:100-130 | The ledger statements keep author ids unique and below the sequence. |
| Delete.Without | backend/internal/Books/delete.go:63-80 | After the deletion the book row is gone and no other row changes. No author is linked under its key, and every other key keeps its links. The author rows are the adjusted ones, and the id sequences are kept. |
| Delete.DeleteBook | backend/internal/Books/delete.go:18-84 | As written: every failure is "not found". With no book or no links it fails. On success, one linked author chosen by the join's first row loses 1, and the book and its links go. |
| Delete.DeleteBookAll | backend/internal/Books/delete.go:18-84 | Corrected: succeeds iff the book exists and some linked author has a row. Then every linked author loses 1, and the book and its links go. |
| Delete.DeleteNeverConflicts | backend/internal/Books/delete.go:44-52 | Neither deletion ever reports an edit conflict. |
| Delete.DeleteBookAllSucceeds | backend/internal/Books/delete.go:20-36 | In a store whose links resolve, the deletion succeeds iff the id names a book with links. |
| Delete.DeleteBookSucceeds | backend/internal/Books/delete.go:20-61 | As written, in a store whose links resolve, the deletion succeeds iff the id names a book with links. |
| Delete.DeleteBookAllKeepsConsistency | backend/internal/Books/delete.go:31-82 | The corrected deletion keeps the catalogue consistent. |
| Delete.DeleteOneAuthorIsDeleteAll | backend/internal/Books/delete.go:31-61 | For a book with exactly one linked author, both deletions are the same transition. |
| Delete.DeleteOneAuthorKeepsConsistency | backend/internal/Books/delete.go:31-82 | As written, deleting a single-author book keeps the catalogue consistent. |
| Delete.DeleteTwoAuthorsBreaksCounts | backend/internal/Books/delete.go:31-61 | A concrete consistent store with a two-author book. As written, the delete succeeds and breaks count == link count. The corrected deletion keeps it. |
| Read.ConvertAuthorsFrom | backend/internal/Books/read.go:41-50 | From `index` on, record i is built from element i of each column. Every other record is left as it was. |
| Read.Convert | backend/internal/Books/read.go:41-50 | Record i is (ID[i], Name[i], Identifier[i], Books_authored[i]) for every i below the number of names. Later records and the other fields are untouched. |
| Read.ConvertBooksFrom | backend/internal/Books/read.go:110-121 | From `index` on, book record i is built from element i of the book columns. Every other record is left as it was. |
| Read.ConvertBooks | backend/internal/Books/read.go:110-121 | Book record i comes from the i-th book columns, with no genres and version 0, for every i below the number of titles. Later records are untouched. |
| Read.AuthorColumns | backend/internal/Books/read.go:56-64 | The four author columns are parallel, one entry per listed key, holding that author's id, name, key and count. |
| Read.Get | backend/internal/Books/read.go:56-93 | Fails iff there is no such book or it has no joined authors. Otherwise returns the stored key and fields, with columns listing each joined author once. |
| Read.FetchEntry | backend/cli/handlers/bookHandlers.go:215-222 | The fetch handler's read fails iff `Get` fails. |
| Read.FetchEntryDescribesAuthors | backend/internal/Books/read.go:56-93 | A fetched entry lists each author linked to the book exactly once, as its stored row. |
| Read.InsertThenGet | backend/internal/Books/read.go:56-93 | Reading back a freshly inserted book gives its fields and exactly the author keys it was linked to. |
| Read.BookColumns | backend/internal/Books/read.go:123-147 | The book columns are parallel, one entry per listed id, holding that book's key, title, publisher, year and pages. |
| Read.AuthorGet | backend/internal/Books/read.go:123-174 | Fails iff no author with the id has linked books. Otherwise returns that author's key, name and count, and each linked book once. |
| Read.AuthorGetFindsTheAuthor | backend/internal/Books/read.go:123-174 | With unique ids it is the one author holding the id. In a consistent store its count equals the number of books listed. |
| Read.BooksLinkedToCount | backend/internal/Books/read.go:136-140 | With unique book keys, an author has as many linked book rows as linked book keys. |
| Handlers.DeleteErrorResponse | backend/cli/handlers/bookHandlers.go:38-47 | Only an edit conflict maps to the conflict response. Every other error, "not found" included, is a server error. |
| Handlers.DeleteHandler | backend/cli/handlers/bookHandlers.go:15-59 | Over the deletion as written: succeeds iff `Delete.DeleteBook` does, and then leaves its result. Otherwise it leaves the store unchanged and answers with a server error, never a conflict. |
| Handlers.DeleteHandlerKeepsConsistency | backend/cli/handlers/bookHandlers.go:31-52 | In a consistent store the handler succeeds iff the book exists and has links. It keeps the catalogue consistent when the book has at most one author. |
| Handlers.DeleteHandlerBreaksCounts | backend/cli/handlers/bookHandlers.go:38-52 | A concrete consistent store with a two-author book where the handler answers success and commits a store whose counts no longer match the links. |
| Handlers.DeleteHandlerAll | backend/cli/handlers/bookHandlers.go:15-59 | Corrected: the same handler over `Delete.DeleteBookAll`, with the same response mapping. |
| Handlers.DeleteHandlerAllKeepsConsistency | backend/cli/handlers/bookHandlers.go:31-52 | The corrected handler keeps every consistent catalogue consistent, whatever the number of authors, and succeeds iff the book exists and has links. |
| Handlers.Sanitise | backend/cli/handlers/bookHandlers.go:111-114 | Same length. Name i is `ToUpper` of input name i. |
| Handlers.AuthorKeys | backend/cli/handlers/bookHandlers.go:111-116 | Key i is `H(ToUpper(name i))`. |
| Handlers.InsertHandler | backend/cli/handlers/bookHandlers.go:61-154 | A validation failure is exactly an unacceptable entry. A server error is exactly a valid entry with a taken title key, a taken id or repeated upper-cased author keys. Only success changes the store. Success adds the book row under `H(title)`, links it to every author key and files every author key. |
| Handlers.SanitiseKeepsVerdict | backend/cli/handlers/bookHandlers.go:105-116 | Validating before or after upper-casing the names gives the same verdict and the same errors. |
| Handlers.InsertHandlerKeepsConsistency | backend/cli/handlers/bookHandlers.go:116-140 | The insert handler keeps the catalogue consistent. |
| Handlers.InsertHandlerKeepsNamesHashed | backend/cli/handlers/bookHandlers.go:111-116 | Every author stays filed under the key of its stored, upper-cased name. |
| Handlers.Merge | backend/cli/handlers/bookHandlers.go:277-317 | Each of title, publisher, year, page count, genres and names takes the client's value when sent and the stored value otherwise. Client names arrive upper-cased. All scalar fields are set. |
| Handlers.ApplyPatch | backend/cli/handlers/bookHandlers.go:325-346 | The diff, hash and `Update.UpdateScanned` sequence as written. An id with no book is an edit conflict. On success the book keeps its stored key, and some author was linked under the key of the merged title. |
| Handlers.UpdateHandler | backend/cli/handlers/bookHandlers.go:234-362 | The response is success, validation failure or server error. Only success changes the store. Success and validation failure both imply the stored entry was read. |
| Handlers.NothingDropped | backend/cli/handlers/bookHandlers.go:325-327 | The hashed `exclusiveOld` handed to the update is empty iff every stored name is among the new names. |
| Handlers.UpdateHandlerKeepsStoredNames | backend/cli/handlers/bookHandlers.go:325-346 | As written, a patch whose names leave out a stored name never succeeds and leaves the store unchanged. |
| Handlers.UpdateHandlerWritesMerge | backend/cli/handlers/bookHandlers.go:288-346 | On success the row holds, field by field, the client's value or the stored one. Its version is one up and it keeps its stored key. Success needs some author linked under `H(merged title)`. No other row changes. |
| Handlers.StoredNamesKeys | backend/internal/Books/read.go:56-64 | If names are filed under their keys, the stored names read for a book are distinct and their keys are exactly the book's linked authors. |
| Handlers.UpdateHandlerRelinks | backend/cli/handlers/bookHandlers.go:325-342 | On success the links under `H(merged title)` are exactly the keys of the new names, and the links under every other key are unchanged. |
| Handlers.UpdateHandlerRetitleFails | backend/cli/handlers/bookHandlers.go:342-346 | In a store whose links resolve, a patch whose merged title has a key no book holds never succeeds, and leaves the store unchanged. |
| Handlers.KeysOfDifference | backend/internal/filters.go:74-94 | Without collisions, the keys of a listing of b − c are keys(b) − keys(c). |
| Handlers.DiffFitsLedger | backend/cli/handlers/bookHandlers.go:325-327 | For distinct new names, the hashed `exclusiveNew` is exactly the new keys not yet linked, and the hashed `exclusiveOld` exactly the linked keys no longer named. |
| Handlers.ApplyPatchKeepsConsistency | backend/cli/handlers/bookHandlers.go:325-346 | As written, a valid patch over a consistent store keeps it consistent, given a merged title that keeps the book's key, distinct new names, no collisions, and stored names whose keys are the links. |
| Handlers.UpdateHandlerKeepsConsistency | backend/cli/handlers/bookHandlers.go:234-362 | End to end, as written: the patch handler keeps the catalogue consistent. This assumes a collision-free `H`, authors filed under their names' keys, no name sent twice, and a merged title whose key is the book's own or held by no book. |
| Handlers.ApplyPatchDistinct | backend/cli/handlers/bookHandlers.go:325-346 | Corrected: the same sequence with the new names deduplicated first. It equals `ApplyPatch` whenever the names are already distinct. |
| Handlers.ApplyPatchDistinctKeepsConsistency | backend/cli/handlers/bookHandlers.go:325-346 | With deduplicated names, a patch that keeps the book's key keeps the catalogue consistent, with no condition on repeated names. |
| Handlers.ApplyPatchRekeyed | backend/cli/handlers/bookHandlers.go:325-346 | Corrected: the sequence over `Update.UpdateRekeyed` with deduplicated names. On success the book's key is `H(merged title)`. A title whose key another book holds is a unique violation. While the key is kept and no stored name is dropped, it equals `ApplyPatchDistinct`. While the key is kept and a stored name is dropped, its success means `ApplyPatchDistinct` fails with the decode error. |
| Handlers.ApplyPatchRekeyedKeepsConsistency | backend/cli/handlers/bookHandlers.go:325-346 | The corrected sequence keeps a consistent catalogue consistent for any title and any repeated names. |
| Handlers.UpdateHandlerRekeyed | backend/cli/handlers/bookHandlers.go:234-362 | Corrected: the patch handler over `ApplyPatchRekeyed`, with the same read, merge, validation and response mapping. |
| Handlers.UpdateHandlerRekeyedKeepsConsistency | backend/cli/handlers/bookHandlers.go:234-362 | The corrected handler keeps the catalogue consistent, assuming only a collision-free `H` and authors filed under their names' keys. |
| Handlers.ApplyPatchSameNames | backend/cli/handlers/bookHandlers.go:313-327 | Re-sending the stored, distinct names yields empty exclusive lists and leaves every author row alone. |
| Handlers.UpdateWithoutNamesKeepsLedger | backend/cli/handlers/bookHandlers.go:313-327 | A patch without names leaves both exclusive lists empty, so no ledger statement runs and the author rows and id sequence are unchanged. |
| Handlers.NamedTwiceBreaksCounts | backend/cli/handlers/bookHandlers.go:325-342 | A concrete consistent store where a patch naming the book's one author twice succeeds but leaves that author counted twice with one link. |
| Handlers.NamedTwiceDistinctKeepsCounts | backend/cli/handlers/bookHandlers.go:325-342 | With the names deduplicated, the same patch succeeds and leaves the catalogue consistent. |
| Handlers.ReplaceAuthorFails | backend/internal/Books/update.go:132-154 | A concrete consistent store where a patch replacing the book's one author by another fails as written with the decode error. The corrected sequence commits it and stays consistent. |
| Handlers.RetitleOntoOtherBreaksCounts | backend/cli/handlers/bookHandlers.go:325-346 | A concrete consistent store with keys equal to titles, where retitling book X to book Y's title succeeds as written and links X's author to both books while counting one. The corrected sequence refuses it with a unique violation. |

## Left out

- HTTP routing, JSON decoding and encoding, response writing, logging, contexts and timeouts, and `ReadIDParams`. The handlers take the decoded id and body as parameters. Transport failures, such as a bad id or bad JSON, are not modelled.
- SHA-1 and hex encoding: `H` is a parameter. Collision-freedom is a stated assumption, as no real hash has it.
- `time.Now()`: the current year is a parameter.
- The validator package is not part of this model. `Check` records an error under a key when its condition is false, and `Valid` means nothing was recorded. The log is a list rather than a map keyed by field, so a second error under the same key is also recorded. No verdict depends on the difference.
- Go's `int32` and `int64` widths for year, page count and ids. The bounds checks keep year and page count small. Id overflow is not modelled.
- Concurrency, row locking and isolation between transactions. Each handler is one atomic step, and a failed `Commit` is not modelled.
- The values the statements read back are not modelled, apart from the decrement's failure. Several scans in update.go and create.go pass `pq.Array` a slice rather than its address, so the decoded values are discarded. They decode without error and change no store state. The one read-back that fails, the decrement's in update.go:142-144, is modelled by `Update.UpdateScanned` (see Findings).
- The rows `Insert` and `Update` read back with `RETURNING`, and the response bodies built from them. They change no store state.
- Store.Upsert: the two arrays of an `UNNEST` pair are of equal length by requirement. The handlers always pass equal lengths.
- Update.Rewritten: a nil genres list is stored as the empty list, not as SQL NULL.
- Update.ValidateEntry: requires every scalar field to be set. The source dereferences them, and the patch handler always sets them.
- Create.Insert: the schema is not part of this model, so its constraints are assumed. The model takes `books.book_id` to be UNIQUE, which makes a taken `H(title)` a unique violation, and `books.id` to be the primary key. `InsertRejectsTakenKeys`, `InsertPreservesConsistency` and `Handlers.InsertHandler`'s server-error case rest on that. It assumes no UNIQUE constraint on `title` itself, and a link table whose foreign key to the book cascades on delete. With no such constraint on `book_id`, a second book with a taken title would be stored, and `HashesUnique` would not be kept.
- Delete.Without: deleting a book removes its links, as an `ON DELETE CASCADE` foreign key would. The schema is not part of this model, and the code deletes no link itself.
- Read.Get: a query with no row gives `sql.ErrNoRows`, modelled as `NotFound`. Both handlers turn any error into a server error either way.
- Filters.DiffArrays: `exclusiveOld` comes in an unspecified order, so its contract states contents and distinctness, not order.
- Handlers.InsertHandler: a rolled-back request leaves the store, the id sequences included, as it was. PostgreSQL does not roll back `nextval`, so a failed insert can still advance the book and author id sequences. Only ids are affected, and `IdsFresh` still holds, since the real sequences only run further ahead.
- Handlers.UpdateHandler: the same holds for a failed update, whose upsert can advance the author id sequence in the database but not in the model.
- Handlers.DeleteHandlerKeepsConsistency: states consistency only for a book with at most one author. For two or more the code as written breaks the counts, as `Handlers.DeleteHandlerBreaksCounts` shows.
- Handlers.UpdateHandlerKeepsConsistency: states consistency only when the merged title's key is the book's own or held by no book, and the names are distinct. The other two cases break the counts, as `Handlers.RetitleOntoOtherBreaksCounts` and `Handlers.NamedTwiceBreaksCounts` show.

## Findings

| source | as written | input that shows it | evidently intended | confidence | as-written member | corrected member |
|---|---|---|---|---|---|---|
| backend/internal/Books/delete.go:20-44 | The join's first row names one linked author, and only that author's count drops | A book linked to two authors, each with count 1 | Every linked author loses one | high (not executed) | Delete.DeleteBook, Delete.DeleteTwoAuthorsBreaksCounts | Delete.DeleteBookAll, Delete.DeleteBookAllKeepsConsistency |
| backend/internal/Books/update.go:65-70, 156-197 | The row's `book_id` is never rewritten, yet links are deleted and re-inserted under the new title's key | Retitle book X to book Y's title: Y's links are replaced by X's authors | The book moves to its new key, and the links under its old key are replaced | high (not executed) | Update.Update, Update.UpdateRetitleCorruptsLinks | Update.UpdateRekeyed, Update.UpdateRekeyedKeepsConsistency |
| backend/cli/handlers/bookHandlers.go:325-342 | The client's names are diffed and upserted with repeats kept, while the link insert collapses them | A patch naming the book's one author twice: the author's count becomes 2 with one link | Each distinct name is counted once | medium (not executed) | Handlers.ApplyPatch, Handlers.NamedTwiceBreaksCounts | Handlers.ApplyPatchDistinct, Handlers.ApplyPatchDistinctKeepsConsistency |
| backend/internal/Books/update.go:142-151 | The decrement's `RETURNING books_authored` yields one integer, which is scanned into `pq.Array` of a `[]int32` passed by value. The driver's array decoder refuses an integer, so every matched row makes the update fail | A patch replacing a book's one author A by B: the decode fails, the handler answers 500 and rolls back | Stored names no longer sent lose one from their counts and the update commits | high (not executed) | Update.UpdateScanned, Handlers.UpdateHandlerKeepsStoredNames, Handlers.ReplaceAuthorFails | Update.DecrementStep, Handlers.ApplyPatchRekeyedKeepsConsistency |
| backend/internal/filters.go:33-34 | The two "page_size" checks test `Page` | Page 1 with PageSize 1000000 is accepted | The checks test `PageSize` against 0 and 30 | high (not executed) | Filters.ValidateFilters, Filters.ValidateFiltersIgnoresPageSize | Filters.ValidateFiltersIntended |
