/**
 * Book records and the collection operations the route handlers of
 * routes/books.js perform on the loaded array: `find`/`findIndex` by id,
 * the object literals that build a new record and merge an update, and
 * `splice` at one index. Also the attachment invariants a collection and
 * the upload directory are meant to keep.
 */
module Books {
  import opened Wrappers
  import opened Naming

  datatype Book = Book(
    id: int,
    name: string,
    author: string,
    category: string,
    date: string,
    image: string,
    notes: string)

  /** The text fields of a request body; `None` is a field that was not sent. */
  datatype Form = Form(
    name: Option<string>,
    author: Option<string>,
    category: Option<string>,
    date: Option<string>,
    notes: Option<string>)

  /** The failures a handler reports. */
  datatype Error =
    | NotFound        // 404 "Book not found"
    | MissingFields   // 400 "Name, author, and date are required"
    | UploadRejected  // the filter's "Only image files are allowed!", raised before any handler runs

  datatype Result<T> = Ok(value: T) | Err(error: Error)

  const DefaultCategory: string := "Fiction"

  /** JavaScript truthiness of an optional string: present and non-empty. */
  predicate Truthy(v: Option<string>) {
    v.Some? && v.value != ""
  }

  /** `v || fallback` */
  function Or(v: Option<string>, fallback: string): (r: string)
    ensures Truthy(v) ==> r == v.value
    ensures !Truthy(v) ==> r == fallback
  {
    if Truthy(v) then v.value else fallback
  }

  /**
   * The create handler's check: name, author and date all truthy. A field
   * counts as missing when it is absent or is the empty string.
   */
  predicate Complete(form: Form): (r: bool)
    ensures r ==> form.name.Some? && form.author.Some? && form.date.Some?
    ensures r ==> form.name.value != "" && form.author.value != "" && form.date.value != ""
    ensures !r ==> form.name in {None, Some("")} || form.author in {None, Some("")} || form.date in {None, Some("")}
  {
    Truthy(form.name) && Truthy(form.author) && Truthy(form.date)
  }

  /** A record as create makes it and update keeps it: its required text fields are non-empty. */
  predicate WellFormed(b: Book) {
    b.name != "" && b.author != "" && b.date != "" && b.category != ""
  }

  /** The `image` a record gets from an upload stored under `file`, or `fallback` without one. */
  function ImageFor(file: Option<string>, fallback: string): (image: string)
    ensures file.Some? ==> image != "" && image == ImageRef(file.value)
    ensures file.None? ==> image == fallback
  {
    match file
    case Some(filename) => ImageRef(filename)
    case None => fallback
  }

  /** The record literal of the create handler. */
  function NewBook(id: int, form: Form, file: Option<string>): (b: Book)
    requires Complete(form)
    ensures WellFormed(b)
    ensures b.id == id
    ensures b.name == form.name.value && b.author == form.author.value && b.date == form.date.value
    ensures b.category == (if Truthy(form.category) then form.category.value else DefaultCategory)
    ensures b.notes == (if Truthy(form.notes) then form.notes.value else "")
    ensures b.image == (if file.Some? then ImageRef(file.value) else "")
  {
    Book(
      id := id,
      name := form.name.value,
      author := form.author.value,
      category := Or(form.category, DefaultCategory),
      date := form.date.value,
      image := ImageFor(file, ""),
      notes := Or(form.notes, ""))
  }

  /**
   * The record literal of the update handler: the old record with name,
   * author, category and date replaced only by truthy values, notes replaced
   * whenever sent (even as ""), and the image replaced only by an upload.
   */
  function Merge(prev: Book, form: Form, file: Option<string>): (b: Book)
    ensures b.id == prev.id
    ensures WellFormed(prev) ==> WellFormed(b)
    ensures b.name == (if Truthy(form.name) then form.name.value else prev.name)
    ensures b.author == (if Truthy(form.author) then form.author.value else prev.author)
    ensures b.category == (if Truthy(form.category) then form.category.value else prev.category)
    ensures b.date == (if Truthy(form.date) then form.date.value else prev.date)
    ensures b.notes == (if form.notes.Some? then form.notes.value else prev.notes)
    ensures b.image == (if file.Some? then ImageRef(file.value) else prev.image)
  {
    prev.(
      name := Or(form.name, prev.name),
      author := Or(form.author, prev.author),
      category := Or(form.category, prev.category),
      date := Or(form.date, prev.date),
      notes := form.notes.GetOr(prev.notes),
      image := ImageFor(file, prev.image))
  }

  /** `books.findIndex(b => b.id === id)`: the first index holding `id`, or -1. */
  function FindIndex(books: seq<Book>, id: int): (i: int)
    ensures -1 <= i < |books|
    ensures i == -1 <==> forall j :: 0 <= j < |books| ==> books[j].id != id
    ensures 0 <= i ==> books[i].id == id && forall j :: 0 <= j < i ==> books[j].id != id
  {
    if books == [] then -1
    else if books[0].id == id then 0
    else
      var k := FindIndex(books[1..], id);
      if k == -1 then -1 else k + 1
  }

  /** `books.find(b => b.id === id)`. */
  function Find(books: seq<Book>, id: int): (r: Option<Book>)
    ensures r.None? <==> forall j :: 0 <= j < |books| ==> books[j].id != id
    ensures r.Some? ==> r.value in books && r.value.id == id
    ensures r.Some? ==> exists i :: 0 <= i < |books| && books[i] == r.value &&
                                    forall j :: 0 <= j < i ==> books[j].id != id
  {
    if books == [] then None
    else if books[0].id == id then Some(books[0])
    else Find(books[1..], id)
  }

  /** `books.splice(i, 1)`: the record at `i` is dropped, the others keep their order. */
  function RemoveAt(books: seq<Book>, i: int): (r: seq<Book>)
    requires 0 <= i < |books|
    ensures |r| == |books| - 1
    ensures forall j :: 0 <= j < i ==> r[j] == books[j]
    ensures forall j :: i <= j < |r| ==> r[j] == books[j + 1]
    ensures multiset(r) + multiset{books[i]} == multiset(books)
  {
    assert books == books[..i] + [books[i]] + books[i + 1..];
    books[..i] + books[i + 1..]
  }

  // ---------------------------------------------------------------------------
  // Writing books.json.

  /** How one `writeFileSync` of books.json ends. */
  datatype SaveOutcome =
    | Saved      // the whole collection is written
    | Refused    // the file could not be opened for writing and is left as it was
    | Truncated  // the file was opened, and so emptied, then the write failed: what is left does not parse

  /**
   * The document after writing `books` over `prev`. A truncated write leaves
   * an empty file or a proper prefix of the serialised array, which lacks its
   * closing bracket; either way it no longer parses.
   */
  function Persisted(prev: Option<seq<Book>>, books: seq<Book>, save: SaveOutcome): (doc: Option<seq<Book>>)
    ensures save.Saved? ==> doc == Some(books)
    ensures save.Refused? ==> doc == prev
    ensures save.Truncated? ==> doc == None
  {
    match save
    case Saved => Some(books)
    case Refused => prev
    case Truncated => None
  }

  // ---------------------------------------------------------------------------
  // Attachment invariants.

  /** Files left after unlinking the attachment `image` if it is set (an already missing file is no error). */
  function Unlinked(files: set<string>, image: string): (r: set<string>)
    ensures r <= files
    ensures image != "" ==> image !in r && r + {image} >= files
    ensures image == "" ==> r == files
  {
    if image != "" then files - {image} else files
  }

  /** Every record with an image refers to a file that is present. */
  ghost predicate Attached(books: seq<Book>, files: set<string>) {
    forall j :: 0 <= j < |books| && books[j].image != "" ==> books[j].image in files
  }

  /** No two records share an attachment. */
  ghost predicate Exclusive(books: seq<Book>) {
    forall j, k :: 0 <= j < |books| && 0 <= k < |books| && j != k && books[j].image != "" ==>
      books[j].image != books[k].image
  }

  /** No record refers to `ref`. */
  ghost predicate Unreferenced(books: seq<Book>, ref: string) {
    forall j :: 0 <= j < |books| ==> books[j].image != ref
  }

  ghost predicate UniqueIds(books: seq<Book>) {
    forall j, k :: 0 <= j < |books| && 0 <= k < |books| && j != k ==> books[j].id != books[k].id
  }

  ghost predicate AllWellFormed(books: seq<Book>) {
    forall j :: 0 <= j < |books| ==> WellFormed(books[j])
  }

  /** `find` and `findIndex` pick the same record. */
  lemma {:induction false} FindAgreesWithFindIndex(books: seq<Book>, id: int)
    ensures Find(books, id) == (if FindIndex(books, id) == -1 then None else Some(books[FindIndex(books, id)]))
  {
    if books != [] && books[0].id != id {
      FindAgreesWithFindIndex(books[1..], id);
    }
  }

  /** The index findIndex returns is pinned down by its id and the ids before it. */
  lemma FindIndexAt(books: seq<Book>, id: int, i: int)
    requires 0 <= i < |books| && books[i].id == id
    requires forall j :: 0 <= j < i ==> books[j].id != id
    ensures FindIndex(books, id) == i
  {
  }
}
