/**
 * The route handlers of routes/books.js over the two pieces of state they
 * share: the books.json document and the upload directory. The handlers
 * that change the collection load it, change their local copy and write it
 * back; how that write ends is passed in as `save` and, as in the router,
 * never changes what the handler answers. The clock and the random suffix
 * are parameters too.
 */
module Store {
  import opened Wrappers
  import opened Upload
  import opened Naming
  import opened Books

  /** The stored name of the upload a request carries, once it has passed the filter. */
  function StoredFile(upload: Option<Candidate>, stamp: nat, suffix: nat): (file: Option<string>)
    ensures file.Some? <==> upload.Some? && !Skipped(upload.value)
    ensures file.Some? ==> file.value == StoredName(stamp, suffix, upload.value.originalname)
  {
    if upload.None? || Skipped(upload.value) then None
    else Some(StoredName(stamp, suffix, upload.value.originalname))
  }

  class BookStore {
    /** books.json: the stored collection, or None when it is missing or does not parse. */
    var document: Option<seq<Book>>
    /** The files present in the upload directory, named by the reference a record stores for them. */
    var files: set<string>

    constructor (document: Option<seq<Book>>, files: set<string>)
      ensures this.document == document && this.files == files
    {
      this.document := document;
      this.files := files;
    }

    /** readBooks(): the stored collection; any read or parse failure yields the empty collection. */
    function ReadBooks(): (books: seq<Book>)
      reads this
      ensures document.None? ==> books == []
      ensures document.Some? ==> books == document.value
    {
      document.GetOr([])
    }

    /**
     * writeBooks(books): a successful write replaces the whole document; a
     * write that could not open the file leaves it; one that failed after
     * opening it leaves it unreadable. The result says whether it succeeded.
     */
    method WriteBooks(books: seq<Book>, save: SaveOutcome) returns (written: bool)
      modifies this`document
      ensures written == save.Saved?
      ensures document == Persisted(old(document), books, save)
    {
      match save {
        case Saved =>
          document := Some(books);
          written := true;
        case Refused =>
          written := false;
        case Truncated =>
          document := None;
          written := false;
      }
    }

    /**
     * upload.single('image'): a file part with an empty name is skipped; any
     * other upload must pass the filter and is then written to the upload
     * directory under its generated name, before any handler runs; a refused
     * upload stops the request with nothing written.
     */
    method Receive(upload: Option<Candidate>, stamp: nat, suffix: nat) returns (r: Result<Option<string>>)
      modifies this`files
      ensures (upload.None? || Skipped(upload.value)) ==> r == Ok(None) && files == old(files)
      ensures upload.Some? && !Skipped(upload.value) && !Accepts(upload.value) ==>
        r == Err(UploadRejected) && files == old(files)
      ensures upload.Some? && !Skipped(upload.value) && Accepts(upload.value) ==>
        var name := StoredName(stamp, suffix, upload.value.originalname);
        r == Ok(Some(name)) && files == old(files) + {ImageRef(name)}
    {
      if upload.None? || upload.value.originalname == "" {
        return Ok(None);
      }
      if !Accepts(upload.value) {
        return Err(UploadRejected);
      }
      var name := StoredName(stamp, suffix, upload.value.originalname);
      files := files + {ImageRef(name)};
      r := Ok(Some(name));
    }

    /** GET /: the whole collection in stored order. */
    method List() returns (books: seq<Book>)
      ensures document.Some? ==> books == document.value
      ensures document.None? ==> books == []
    {
      books := ReadBooks();
    }

    /** GET /:id: the first record with the id, or not found. */
    method Get(id: int) returns (r: Result<Book>)
      ensures r.Err? <==> forall j :: 0 <= j < |ReadBooks()| ==> ReadBooks()[j].id != id
      ensures r.Err? ==> r.error == NotFound
      ensures r.Ok? ==> r.value.id == id && r.value == ReadBooks()[FindIndex(ReadBooks(), id)]
    {
      var books := ReadBooks();
      var book := Find(books, id);
      if book.None? {
        return Err(NotFound);
      }
      FindAgreesWithFindIndex(books, id);
      r := Ok(book.value);
    }

    /**
     * POST / after the upload step, with `file` the stored name of the upload
     * if there was one. A request without name, author or date is refused
     * and leaves the collection alone (an upload it carried stays on disk);
     * otherwise the new record is appended and the collection written back.
     */
    method Create(form: Form, file: Option<string>, now: int, save: SaveOutcome) returns (r: Result<Book>)
      modifies this`document
      ensures files == old(files)
      ensures !Complete(form) ==> r == Err(MissingFields) && document == old(document)
      ensures Complete(form) ==>
        r == Ok(NewBook(now, form, file)) &&
        document == Persisted(old(document), old(ReadBooks()) + [r.value], save)
    {
      var books := ReadBooks();
      if !Complete(form) {
        return Err(MissingFields);
      }
      var book := NewBook(now, form, file);
      books := books + [book];
      var _ := WriteBooks(books, save);
      r := Ok(book);
    }

    /**
     * PUT /:id after the upload step. The first record with the id is merged
     * with the form; when a new file was uploaded, the file of the old image
     * is deleted first (a file already gone is skipped).
     */
    method Update(id: int, form: Form, file: Option<string>, save: SaveOutcome) returns (r: Result<Book>)
      modifies this
      ensures var books := old(ReadBooks());
              var i := FindIndex(books, id);
              if i == -1 then
                r == Err(NotFound) && document == old(document) && files == old(files)
              else
                r == Ok(Merge(books[i], form, file)) &&
                files == (if file.Some? then Unlinked(old(files), books[i].image) else old(files)) &&
                document == Persisted(old(document), books[i := r.value], save)
    {
      var books := ReadBooks();
      var i := FindIndex(books, id);
      if i == -1 {
        return Err(NotFound);
      }
      var prev := books[i];
      if file.Some? && prev.image != "" {
        if prev.image in files {
          files := files - {prev.image};
        }
      }
      books := books[i := Merge(prev, form, file)];
      var _ := WriteBooks(books, save);
      r := Ok(books[i]);
    }

    /**
     * DELETE /:id: the file of the first matching record's image is deleted
     * first, then the record is spliced out and the collection written back.
     */
    method Delete(id: int, save: SaveOutcome) returns (r: Result<()>)
      modifies this
      ensures var books := old(ReadBooks());
              var i := FindIndex(books, id);
              if i == -1 then
                r == Err(NotFound) && document == old(document) && files == old(files)
              else
                r == Ok(()) &&
                files == Unlinked(old(files), books[i].image) &&
                document == Persisted(old(document), RemoveAt(books, i), save)
    {
      var books := ReadBooks();
      var i := FindIndex(books, id);
      if i == -1 {
        return Err(NotFound);
      }
      var book := books[i];
      if book.image != "" {
        if book.image in files {
          files := files - {book.image};
        }
      }
      books := RemoveAt(books, i);
      var _ := WriteBooks(books, save);
      r := Ok(());
    }

    /** POST / as routed: the upload step, then the create handler if the upload was not refused. */
    method Post(form: Form, upload: Option<Candidate>, stamp: nat, suffix: nat, now: int, save: SaveOutcome)
      returns (r: Result<Book>)
      modifies this
      ensures var file := StoredFile(upload, stamp, suffix);
              if file.Some? && !Accepts(upload.value) then
                r == Err(UploadRejected) && document == old(document) && files == old(files)
              else
                files == (if file.Some? then old(files) + {ImageRef(file.value)} else old(files)) &&
                if Complete(form) then
                  r == Ok(NewBook(now, form, file)) &&
                  document == Persisted(old(document), old(ReadBooks()) + [r.value], save)
                else
                  r == Err(MissingFields) && document == old(document)
    {
      var received := Receive(upload, stamp, suffix);
      if received.Err? {
        return Err(received.error);
      }
      r := Create(form, received.value, now, save);
    }

    /**
     * PUT /:id as routed: the new file is already on disk when the handler
     * deletes the old one.
     */
    method Put(id: int, form: Form, upload: Option<Candidate>, stamp: nat, suffix: nat, save: SaveOutcome)
      returns (r: Result<Book>)
      modifies this
      ensures var file := StoredFile(upload, stamp, suffix);
              if file.Some? && !Accepts(upload.value) then
                r == Err(UploadRejected) && document == old(document) && files == old(files)
              else
                var stored := if file.Some? then old(files) + {ImageRef(file.value)} else old(files);
                var books := old(ReadBooks());
                var i := FindIndex(books, id);
                if i == -1 then
                  r == Err(NotFound) && document == old(document) && files == stored
                else
                  r == Ok(Merge(books[i], form, file)) &&
                  files == (if file.Some? then Unlinked(stored, books[i].image) else stored) &&
                  document == Persisted(old(document), books[i := r.value], save)
    {
      var received := Receive(upload, stamp, suffix);
      if received.Err? {
        return Err(received.error);
      }
      r := Update(id, form, received.value, save);
    }
  }

}
