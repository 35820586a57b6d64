# Bookfolio books router, modelled in Dafny

A model of the book-collection manager of the Bookfolio backend
(`routes/books.js`): the upload filter and naming scheme of the cover-image
upload step, the record literals of the create and update handlers, the
`find` / `findIndex` / `push` / index-assignment / `splice` operations the
handlers perform on the loaded collection, and the lifecycle of the
attachment files in the upload directory.

- `upload.dfy` (module `Upload`): the `fileFilter` of the upload step. The
  unanchored pattern `jpeg|jpg|png|gif|webp` is modelled as "one of the five
  alternatives occurs as a substring", `path.extname` as `ExtName`, and
  `toLowerCase` as `Lower`. The filter lower-cases the extension before the
  test but not the mimetype, which it takes as the multipart parser reports it.
- `naming.dfy` (module `Naming`): the `filename` callback
  (`"book-" + stamp + "-" + suffix + ext`), the decimal rendering of the two
  numbers, and the public reference `"/uploads/books/" + filename` a record
  stores. `ParseStoredName` is the inverse of the scheme. It is used only to
  prove that a stored name determines its stamp, suffix and extension.
- `books.dfy` (module `Books`): `Book` and `Form` (a request body, where
  `None` is a field that was not sent and `Some("")` one sent empty),
  JavaScript truthiness, `NewBook` (the create literal), `Merge` (the update
  literal), `FindIndex`, `Find`, `RemoveAt` (`splice(i, 1)`), `Unlinked` (the
  "delete the image file if set and present" step), and the attachment
  invariants.
- `lifecycle.dfy` (module `Lifecycle`): lemmas about what create, update and
  delete do to the collection and to the files. These cover consistency
  preservation, lookups after each operation, and the ways files go missing
  or become orphans.
- `store.dfy` (module `Store`): class `BookStore`. It has two fields:
  `document` (books.json; `None` when it is missing or does not parse) and
  `files` (the files present in the upload directory, named by the reference
  records store for them). The upload step and the handlers are its methods.
  `List` and `Get` only load the collection. `Create`, `Update` and `Delete`
  load it, change their local copy and write it back. `Receive`, the upload
  step, only stores a file.

Inputs from the environment are parameters:
- `stamp` and `suffix` are the `Date.now()` and `Math.round(Math.random() * 1E9)` of the filename.
- `now` is the `Date.now()` that becomes a new record's id.
- `save` says how `writeFileSync` of books.json ends (`SaveOutcome`):
  `Saved` (the whole collection is written), `Refused` (the file could not be
  opened and is left as it was) or `Truncated` (the file was opened, and so
  emptied, and the write then failed, leaving a document that does not parse).

As in the router, a failed save does not change what the handler answers.
After a `Truncated` save the next load yields the empty collection.

Some behaviours of the router that the model keeps as written:
- Delete removes the image file *before* the record is spliced out and the
  collection saved, not after.
- A failed save is not reported, and a save that fails after opening the
  file loses the whole collection.
- The filter compares the mimetype as the multipart parser reports it; only
  the extension is lower-cased by the filter itself.
- A refused upload raises a plain error in the upload step, before any
  handler runs.
- A create refused for a missing field still leaves the already stored
  upload on disk.
- A file part sent with an empty file name (an empty file input) is skipped
  by the multipart parser: the request proceeds as if it carried no upload.

## Model

| member | source | states |
|---|---|---|
| `Upload.Occurs` | routes/books.js:25-27 | one alternative of the pattern tests true exactly when it occurs somewhere in the string (no anchors) |
| `Upload.MatchesAllowed` | routes/books.js:25 | the pattern tests true exactly when one of `jpeg`, `jpg`, `png`, `gif`, `webp` occurs in the string |
| `Upload.LastDot` | routes/books.js:26 | the position of the last '.' (or -1 when there is none), with no '.' after it |
| `Upload.ExtName` | routes/books.js:17 | a non-empty extension starts with '.', is a proper suffix of the name and holds no other '.'; it is empty for ".." and otherwise only when no '.' follows the first character |
| `Upload.Lower` | routes/books.js:26 | lower-casing keeps the length, leaves no upper-case ASCII letter and keeps every other character |
| `Upload.Accepts` | routes/books.js:24-34 | a file is accepted iff the lower-cased extension contains an alternative AND the mimetype, as the multipart parser reports it, contains one |
| `Upload.AcceptedHasExtension` | routes/books.js:26 | an accepted name has a '.' after its first character, so "png" and ".png" are refused |
| `Upload.UpperCaseMimetypeRefused` | routes/books.js:27 | the filter does not lower-case the mimetype it is given: a mimetype without lower-case letters ("IMAGE/PNG") reaching the filter is refused |
| `Upload.ExtensionCaseIgnored` | routes/books.js:26 | two names whose extensions agree after lower-casing get the same verdict |
| `Upload.DotFileRefused` | routes/books.js:26 | ".png" has no extension and is refused with any mimetype |
| `Upload.UpperCaseExtensionAccepted` | routes/books.js:26-29 | "cover.PNG" with "image/png" is accepted |
| `Upload.UnanchoredMatchAccepted` | routes/books.js:25-29 | "scan.jpgz" with "text/gifts" is accepted: the alternatives need not fill the extension or the mimetype |
| `Upload.TextFileRefused` | routes/books.js:26-32 | "notes.txt" is refused whatever mimetype it claims |
| `Naming.StoredName` | routes/books.js:15-18 | a stored name starts with "book-", ends with the original file's extension, and holds no '.' before that extension |
| `Naming.ImageRef` | routes/books.js:93 | a record's image reference is "/uploads/books/" followed by exactly the stored file name |
| `Naming.Decimal` | routes/books.js:16 | the numbers in a stored name are non-empty digit strings without a leading zero |
| `Naming.ValueOfDecimal` | routes/books.js:16 | the decimal numeral of n reads back as n |
| `Naming.StoredNameRoundTrip` | routes/books.js:15-18 | a stored name "book-<stamp>-<suffix><ext>" reads back into exactly its stamp, suffix and the original file's extension |
| `Naming.StoredNameInjective` | routes/books.js:15-18 | two uploads get the same file name only with the same stamp, suffix and extension |
| `Naming.ImageRefShape` | routes/books.js:15-18 | the reference of an upload is "/uploads/books/book-" + stamp + "-" + suffix + extension |
| `Books.Or` | routes/books.js:130-133 | the `or` fallback of the update literal: the value when it is truthy (sent and non-empty), the fallback otherwise |
| `Books.Complete` | routes/books.js:83 | the create check passes only when name, author and date are all sent and non-empty, and fails when any of them is absent or empty |
| `Books.Persisted` | routes/books.js:49-57 | the document after a save: the whole collection when the write succeeds, the previous document when the file could not be opened, an unreadable document when the write failed after truncating it |
| `Books.ImageFor` | routes/books.js:93 | with an upload the image is its non-empty reference, without one it is the fallback |
| `Books.NewBook` | routes/books.js:87-95 | a new record has the given id, the sent name, author and date, category "Fiction" and notes "" when those are falsy, image "" without an upload, and is well formed |
| `Books.Merge` | routes/books.js:128-136 | the merged record keeps the id; name, author, category and date change only for truthy values; notes change whenever sent, even as ""; image changes only with an upload; well-formedness is preserved |
| `Books.FindIndex` | routes/books.js:111 | -1 exactly when no record has the id; otherwise the first index whose record has it |
| `Books.Find` | routes/books.js:68 | nothing exactly when no record has the id; otherwise a record of the collection with that id and no earlier match |
| `Books.FindAgreesWithFindIndex` | routes/books.js:68 | `find` returns the record at the index `findIndex` returns |
| `Books.RemoveAt` | routes/books.js:166 | splice(i, 1) drops exactly the record at i: one shorter, the others in order, same multiset less that record |
| `Books.Unlinked` | routes/books.js:121-126 | deleting a set image removes exactly that file (a file already missing is no error); an empty image removes nothing |
| `Lifecycle.CreateKeepsConsistent` | routes/books.js:87-98 | appending the new record keeps records well formed, attached to present files and owning their files exclusively, given a fresh upload |
| `Lifecycle.AppendThenFind` | routes/books.js:68 | a record appended with an unused id is the one `find` and `findIndex` return, and ids stay unique |
| `Lifecycle.CreateThenFind` | routes/books.js:87-97 | after create with an unused id, a lookup returns the new record |
| `Lifecycle.CreateWithTakenId` | routes/books.js:88 | ids are not checked: when the clock's value is already an id, a lookup still finds the older record |
| `Lifecycle.UpdateKeepsConsistent` | routes/books.js:121-136 | update with a fresh upload (or none) keeps the store consistent after deleting the old file |
| `Lifecycle.UpdateThenFind` | routes/books.js:111-128 | the updated record stays at the same index and is found by the same id |
| `Lifecycle.UpdateWithNothingIsNoOp` | routes/books.js:128-136 | an update sending no field and no file leaves the record unchanged |
| `Lifecycle.UpdateClearsNotes` | routes/books.js:134 | notes sent as "" clear the notes and change nothing else |
| `Lifecycle.UpdateIgnoresEmptyFields` | routes/books.js:130-133 | name, author, category and date sent as "" keep their old values |
| `Lifecycle.UpdateIdempotent` | routes/books.js:128-136 | repeating the same update changes nothing more |
| `Lifecycle.DeleteKeepsConsistent` | routes/books.js:159-166 | removing a record and its file keeps the store consistent, and no remaining record refers to the deleted file |
| `Lifecycle.DeleteThenNotFound` | routes/books.js:150-166 | with unique ids, the deleted id is not found afterwards |
| `Lifecycle.FailedSaveDangles` | routes/books.js:159-167 | the file is deleted before the save and a failed save is ignored: when books.json could not be opened, the document still holds the record while its file is gone |
| `Lifecycle.TruncatedSaveLosesRecords` | routes/books.js:38-57 | after a save that truncated books.json and failed, the next load is empty, and a create then writes back its own record alone |
| `Lifecycle.FailedUpdateSaveDangles` | routes/books.js:121-138 | update with an upload unlinks the old image before the save: when books.json could not be opened, the document still holds the old record while its file is gone, and the new file is on disk with no record referring to it |
| `Lifecycle.LoadSaveRoundTrip` | routes/books.js:38-57 | saving what was loaded leaves the document unchanged exactly when it was readable; an unreadable one is rewritten as the empty collection |
| `Lifecycle.StoringKeepsConsistent` | routes/books.js:10-19 | storing one more upload keeps the store consistent (an orphan is allowed) |
| `Lifecycle.PostKeepsConsistent` | routes/books.js:78-98 | POST with a freshly named upload: the new record refers to the stored file, and the store stays consistent |
| `Lifecycle.PutReplacesAttachment` | routes/books.js:108-136 | PUT with a freshly named upload deletes exactly the previous file, keeps the new one as the record's image, and keeps the store consistent |
| `Lifecycle.PostSharedName` | routes/books.js:15-18 | if the generated name equals an existing record's image, the new record shares that file, and deleting the new record removes the file the other still refers to |
| `Lifecycle.PutSameNameLosesFile` | routes/books.js:121-135 | if the generated name equals the record's current image, the handler deletes the file just stored and the updated record refers to a missing file |
| `Store.BookStore.ReadBooks` | routes/books.js:38-46 | the stored collection, or the empty collection on any read or parse failure |
| `Store.BookStore.WriteBooks` | routes/books.js:49-57 | a successful write replaces the whole document; a write that could not open the file leaves it; one that failed after opening it leaves it unreadable; the result says whether it succeeded |
| `Store.BookStore.Receive` | routes/books.js:10-35 | no upload, or a file part with an empty name, passes through as no upload; a refused upload stops the request with nothing written; an accepted one is stored under its generated name, which is returned |
| `Store.BookStore.List` | routes/books.js:60-63 | GET / returns the stored collection in order, or empty when the document cannot be read |
| `Store.BookStore.Get` | routes/books.js:66-75 | not found exactly when no record has the id; otherwise the first record with that id |
| `Store.BookStore.Create` | routes/books.js:78-105 | missing name, author or date: refused and nothing changes; otherwise the answer is the new record, and the document is the save's outcome for the old collection plus it (the old document if the file could not be opened, unreadable if the write failed after opening it); files untouched |
| `Store.BookStore.Update` | routes/books.js:108-144 | unknown id: not found and nothing changes; otherwise the record at the first matching index is replaced by the merge; with an upload the old image file is deleted; the rest of the collection is kept; the document is the save's outcome for that collection |
| `Store.BookStore.Delete` | routes/books.js:147-174 | unknown id: not found and nothing changes; otherwise the record's image file is deleted and the document is the save's outcome for the collection without the first matching record |
| `Store.BookStore.Post` | routes/books.js:78-105 | the upload step then create: a refused upload changes nothing; a file part with an empty name counts as no upload; an accepted upload stays on disk even when create is refused |
| `Store.BookStore.Put` | routes/books.js:108-144 | the upload step then update: a file part with an empty name counts as no upload; the new file is on disk before the old one is deleted; the file stays even when the id is unknown |

## Left out

- Express routing, the HTTP status codes and JSON bodies are not modelled. The outcomes are the `Result` values `Ok`, `Err(NotFound)`, `Err(MissingFields)` and `Err(UploadRejected)`.
- The `try/catch` that turns an exception into a 500 is not modelled. No modelled step throws. Exceptions from `unlinkSync` (permissions) or from a non-string `image` in a stored record are left out.
- The multer size limit of 5 MiB is not modelled, and neither are multer's errors for an unexpected field name. These are enforced inside the library.
- `Store.BookStore.Receive`: does not model the size limit or the removal of a partially written file. An accepted upload is always stored. It also does not model how the multipart parser derives the mimetype: the parser lower-cases the type and subtype of the part's Content-Type and substitutes a default type when the header is missing. The candidate's mimetype is the parser's result, so for a real request an upper-case type or subtype never reaches the filter.
- `JSON.parse` / `JSON.stringify` are not modelled. The document is a collection of records or unreadable. A document that parses to something other than an array of records is not modelled.
- Records hold exactly the seven fields. Extra fields that the update's spread would carry over are not modelled, and neither are form fields sent more than once (arrays).
- Request bodies are parsed by express.json and express.urlencoded in server.js. A JSON body can carry non-string values, and these are not modelled: a field is a string, absent or empty. For example, `{"notes": null}` sets notes to null because `null !== undefined`, and `{"name": 0}` counts as missing.
- The `console.error` logging in readBooks, writeBooks and the catch blocks of the handlers is output only and is not modelled.
- `parseInt` of the URL id is not modelled. The id is an integer parameter, so an id that does not parse (NaN, never found) is not covered.
- `Date.now()` and `Math.random()` are parameters. The random suffix is any natural number rather than one in [0, 10^9].
- `Upload.Lower`: lower-cases ASCII letters only. JavaScript's `toLowerCase` also maps other letters. The only non-ASCII characters whose lower case contains an ASCII letter are U+212A (to 'k') and U+0130 (to "i" followed by U+0307). 'k' is in no alternative. The 'i' of U+0130 is a pattern letter, but U+0307 always follows it, so it cannot complete "gif" and the verdict is unchanged.
- `Upload.ExtName`: treats the original name as a bare file name. The multipart parser strips directories, so the handling of '/' and trailing separators in `path.extname` is not modelled.
- Files are keyed by the reference a record stores. The normalisation `path.join` would apply to an unusual `image` value (one with "..", or not under `/uploads/books/`) is not modelled.
- Concurrency is not modelled. Two requests interleaving their load, change and save (a lost update) cannot be expressed in this sequential model.
- server.js is not part of this model. That covers CORS, body-size limits, static serving, directory creation, the seed data and `listen`.
