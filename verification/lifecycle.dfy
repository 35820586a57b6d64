/**
 * What the collection operations of routes/books.js do to the records and
 * to the attachment files, stated over the loaded collection `books` and the
 * set `files` of attachment references present on disk.
 */
module Lifecycle {
  import opened Wrappers
  import opened Naming
  import opened Books

  /** The state the record store is meant to keep between requests. */
  ghost predicate Consistent(books: seq<Book>, files: set<string>) {
    AllWellFormed(books) && Attached(books, files) && Exclusive(books)
  }

  /** An upload whose reference is on disk and belongs to no record yet. */
  ghost predicate FreshUpload(books: seq<Book>, files: set<string>, file: Option<string>) {
    file.Some? ==> ImageRef(file.value) in files && Unreferenced(books, ImageRef(file.value))
  }

  // ---------------------------------------------------------------------------
  // Create: push the new record.

  lemma CreateKeepsConsistent(books: seq<Book>, files: set<string>, id: int, form: Form, file: Option<string>)
    requires Complete(form)
    requires Consistent(books, files)
    requires FreshUpload(books, files, file)
    ensures Consistent(books + [NewBook(id, form, file)], files)
  {
    var nb := NewBook(id, form, file);
    var after := books + [nb];
    forall j, k | 0 <= j < |after| && 0 <= k < |after| && j != k && after[j].image != ""
      ensures after[j].image != after[k].image
    {
      if j < |books| && k < |books| {
        assert books[j].image != books[k].image;
      }
    }
  }

  /** A record appended with an id no other record holds is the one a lookup finds. */
  lemma AppendThenFind(books: seq<Book>, b: Book)
    requires forall j :: 0 <= j < |books| ==> books[j].id != b.id
    ensures FindIndex(books + [b], b.id) == |books|
    ensures Find(books + [b], b.id) == Some(b)
    ensures UniqueIds(books) ==> UniqueIds(books + [b])
  {
    var after := books + [b];
    FindIndexAt(after, b.id, |books|);
    FindAgreesWithFindIndex(after, b.id);
  }

  /** With an id no record holds yet, a lookup right after create finds the new record. */
  lemma CreateThenFind(books: seq<Book>, id: int, form: Form, file: Option<string>)
    requires Complete(form)
    requires forall j :: 0 <= j < |books| ==> books[j].id != id
    ensures FindIndex(books + [NewBook(id, form, file)], id) == |books|
    ensures Find(books + [NewBook(id, form, file)], id) == Some(NewBook(id, form, file))
    ensures UniqueIds(books) ==> UniqueIds(books + [NewBook(id, form, file)])
  {
    AppendThenFind(books, NewBook(id, form, file));
  }

  /**
   * Ids come from the clock and are not checked: when a record already holds
   * the id, a lookup right after create finds that older record instead.
   */
  lemma CreateWithTakenId(books: seq<Book>, id: int, form: Form, file: Option<string>)
    requires Complete(form)
    requires exists j :: 0 <= j < |books| && books[j].id == id
    ensures FindIndex(books + [NewBook(id, form, file)], id) < |books|
  {
    var after := books + [NewBook(id, form, file)];
    var j :| 0 <= j < |books| && books[j].id == id;
    assert after[j].id == id;
  }

  // ---------------------------------------------------------------------------
  // Update: assign the merged record at the first matching index.

  lemma UpdateKeepsConsistent(books: seq<Book>, files: set<string>, i: int, form: Form, file: Option<string>)
    requires 0 <= i < |books|
    requires Consistent(books, files)
    requires FreshUpload(books, files, file)
    ensures var files' := if file.Some? then Unlinked(files, books[i].image) else files;
            Consistent(books[i := Merge(books[i], form, file)], files')
  {
    var nb := Merge(books[i], form, file);
    var after := books[i := nb];
    var files' := if file.Some? then Unlinked(files, books[i].image) else files;
    forall j | 0 <= j < |after| && after[j].image != ""
      ensures after[j].image in files'
    {
      if j != i && file.Some? && books[i].image != "" {
        assert books[j].image != books[i].image;
      }
    }
    forall j, k | 0 <= j < |after| && 0 <= k < |after| && j != k && after[j].image != ""
      ensures after[j].image != after[k].image
    {
      if j != i && k != i {
        assert books[j].image != books[k].image;
      } else if j == i && file.None? {
        assert books[j].image != books[k].image;
      } else if k == i && file.None? {
        assert books[j].image != books[k].image;
      }
    }
    forall j | 0 <= j < |after|
      ensures WellFormed(after[j])
    {
      assert WellFormed(books[j]);
    }
  }

  /** Update keeps the record where it is: a lookup of the same id finds the updated record. */
  lemma UpdateThenFind(books: seq<Book>, id: int, form: Form, file: Option<string>)
    requires FindIndex(books, id) != -1
    ensures var i := FindIndex(books, id);
            FindIndex(books[i := Merge(books[i], form, file)], id) == i
  {
    var i := FindIndex(books, id);
    FindIndexAt(books[i := Merge(books[i], form, file)], id, i);
  }

  /** An update that sends no field and no file leaves the record as it was. */
  lemma UpdateWithNothingIsNoOp(b: Book)
    ensures Merge(b, Form(None, None, None, None, None), None) == b
  {
  }

  /** Sending notes as "" clears them and touches nothing else. */
  lemma UpdateClearsNotes(b: Book)
    ensures Merge(b, Form(None, None, None, None, Some("")), None) == b.(notes := "")
  {
  }

  /** Sending empty strings for the other fields keeps their old values. */
  lemma UpdateIgnoresEmptyFields(b: Book)
    ensures Merge(b, Form(Some(""), Some(""), Some(""), Some(""), None), None) == b
  {
  }

  /** Repeating the same update changes nothing more. */
  lemma UpdateIdempotent(b: Book, form: Form, file: Option<string>)
    ensures Merge(Merge(b, form, file), form, file) == Merge(b, form, file)
  {
  }

  // ---------------------------------------------------------------------------
  // Delete: unlink the attachment, then splice the record out.

  lemma DeleteKeepsConsistent(books: seq<Book>, files: set<string>, i: int)
    requires 0 <= i < |books|
    requires Consistent(books, files)
    ensures Consistent(RemoveAt(books, i), Unlinked(files, books[i].image))
    ensures books[i].image != "" ==> Unreferenced(RemoveAt(books, i), books[i].image)
  {
    var after := RemoveAt(books, i);
    var files' := Unlinked(files, books[i].image);
    forall j | 0 <= j < |after|
      ensures after[j] == books[if j < i then j else j + 1]
    {
    }
    forall j | 0 <= j < |after| && after[j].image != ""
      ensures after[j].image in files'
    {
      var src := if j < i then j else j + 1;
      assert books[src].image != books[i].image;
    }
    forall j, k | 0 <= j < |after| && 0 <= k < |after| && j != k && after[j].image != ""
      ensures after[j].image != after[k].image
    {
      var sj := if j < i then j else j + 1;
      var sk := if k < i then k else k + 1;
      assert books[sj].image != books[sk].image;
    }
    if books[i].image != "" {
      forall j | 0 <= j < |after|
        ensures after[j].image != books[i].image
      {
        var src := if j < i then j else j + 1;
        assert books[src].image != books[i].image;
      }
    }
    forall j | 0 <= j < |after|
      ensures WellFormed(after[j])
    {
      var src := if j < i then j else j + 1;
      assert WellFormed(books[src]);
    }
  }

  /** With unique ids, a lookup after delete reports not found. */
  lemma DeleteThenNotFound(books: seq<Book>, id: int)
    requires UniqueIds(books)
    requires FindIndex(books, id) != -1
    ensures FindIndex(RemoveAt(books, FindIndex(books, id)), id) == -1
  {
    var i := FindIndex(books, id);
    var after := RemoveAt(books, i);
    forall j | 0 <= j < |after|
      ensures after[j].id != id
    {
      var src := if j < i then j else j + 1;
      assert books[src].id != books[i].id;
    }
  }

  /**
   * Delete unlinks the file before the collection is saved, and a failed save
   * is not reported: when the file could not be opened for writing, the
   * document still holds the record while its file is gone.
   */
  lemma FailedSaveDangles(books: seq<Book>, files: set<string>, i: int)
    requires 0 <= i < |books| && books[i].image != ""
    ensures var doc := Persisted(Some(books), RemoveAt(books, i), Refused);
            doc == Some(books) && !Attached(doc.value, Unlinked(files, books[i].image))
  {
    assert books[i].image !in Unlinked(files, books[i].image);
  }

  /**
   * A save that fails after opening the file leaves it unreadable, and the
   * next load yields the empty collection: a create that follows writes back
   * its own record alone, and every earlier record is gone.
   */
  lemma TruncatedSaveLosesRecords(books: seq<Book>, after: seq<Book>, id: int, form: Form, file: Option<string>)
    requires Complete(form)
    ensures var doc := Persisted(Some(books), after, Truncated);
            doc.GetOr([]) == [] &&
            Persisted(doc, doc.GetOr([]) + [NewBook(id, form, file)], Saved) == Some([NewBook(id, form, file)])
  {
    var doc := Persisted(Some(books), after, Truncated);
    assert doc == None;
    assert doc.GetOr([]) + [NewBook(id, form, file)] == [NewBook(id, form, file)];
  }

  /**
   * Update unlinks the old image before the collection is saved as well: with
   * an upload and a save that could not open the file, the document still
   * holds the old record, whose file is gone, while the new file is on disk
   * and belongs to no record.
   */
  lemma FailedUpdateSaveDangles(books: seq<Book>, files: set<string>, i: int, form: Form, name: string)
    requires 0 <= i < |books| && books[i].image != ""
    requires Unreferenced(books, ImageRef(name))
    ensures var doc := Persisted(Some(books), books[i := Merge(books[i], form, Some(name))], Refused);
            var after := Unlinked(files + {ImageRef(name)}, books[i].image);
            && doc == Some(books)
            && !Attached(doc.value, after)
            && ImageRef(name) in after
            && Unreferenced(doc.value, ImageRef(name))
  {
    assert books[i].image != ImageRef(name);
    assert books[i].image !in Unlinked(files + {ImageRef(name)}, books[i].image);
  }

  /**
   * Loading books.json and saving what was loaded: a readable document is
   * written back unchanged, and an unreadable one is replaced by the empty
   * collection.
   */
  lemma LoadSaveRoundTrip(doc: Option<seq<Book>>)
    ensures Persisted(doc, doc.GetOr([]), Saved) == doc <==> doc.Some?
    ensures doc.None? ==> Persisted(doc, doc.GetOr([]), Saved) == Some([])
  {
  }

  // ---------------------------------------------------------------------------
  // The routes: the upload step stores the new file before the handler runs.

  /** Storing one more file keeps every reference satisfied. */
  lemma StoringKeepsConsistent(books: seq<Book>, files: set<string>, ref: string)
    requires Consistent(books, files)
    ensures Consistent(books, files + {ref})
  {
  }

  /**
   * POST with a freshly named upload: the new record refers to the stored
   * file and the store stays consistent.
   */
  lemma PostKeepsConsistent(books: seq<Book>, files: set<string>, id: int, form: Form, name: string)
    requires Complete(form)
    requires Consistent(books, files)
    requires Unreferenced(books, ImageRef(name))
    ensures NewBook(id, form, Some(name)).image in files + {ImageRef(name)}
    ensures Consistent(books + [NewBook(id, form, Some(name))], files + {ImageRef(name)})
  {
    StoringKeepsConsistent(books, files, ImageRef(name));
    CreateKeepsConsistent(books, files + {ImageRef(name)}, id, form, Some(name));
  }

  /**
   * PUT with a freshly named upload: exactly the previous attachment is
   * deleted, the new one stays and is the record's, and the store stays
   * consistent.
   */
  lemma PutReplacesAttachment(books: seq<Book>, files: set<string>, i: int, form: Form, name: string)
    requires 0 <= i < |books|
    requires Consistent(books, files)
    requires Unreferenced(books, ImageRef(name))
    ensures var after := Unlinked(files + {ImageRef(name)}, books[i].image);
            && Merge(books[i], form, Some(name)).image == ImageRef(name)
            && ImageRef(name) in after
            && after == (if books[i].image != "" then (files - {books[i].image}) + {ImageRef(name)}
                         else files + {ImageRef(name)})
            && Consistent(books[i := Merge(books[i], form, Some(name))], after)
  {
    assert books[i].image != ImageRef(name);
    StoringKeepsConsistent(books, files, ImageRef(name));
    UpdateKeepsConsistent(books, files + {ImageRef(name)}, i, form, Some(name));
  }

  /**
   * The one way PUT loses the new file: when the generated name is the one
   * the record already refers to, the handler deletes the file just stored,
   * and the updated record refers to a file that is gone.
   */
  lemma PutSameNameLosesFile(books: seq<Book>, files: set<string>, i: int, form: Form, name: string)
    requires 0 <= i < |books| && books[i].image == ImageRef(name)
    ensures !Attached(books[i := Merge(books[i], form, Some(name))],
                      Unlinked(files + {ImageRef(name)}, books[i].image))
  {
    var after := books[i := Merge(books[i], form, Some(name))];
    assert after[i].image == ImageRef(name);
    assert ImageRef(name) !in Unlinked(files + {ImageRef(name)}, books[i].image);
  }

  /**
   * POST whose generated name is already some record's image: the new record
   * shares that record's file, and deleting the new record removes the file
   * the other one still refers to.
   */
  lemma PostSharedName(books: seq<Book>, files: set<string>, j: int, id: int, form: Form, name: string)
    requires Complete(form)
    requires 0 <= j < |books| && books[j].image == ImageRef(name)
    ensures var after := books + [NewBook(id, form, Some(name))];
            !Exclusive(after) &&
            !Attached(books, Unlinked(files + {ImageRef(name)}, after[|books|].image))
  {
    var after := books + [NewBook(id, form, Some(name))];
    assert after[|books|].image == ImageRef(name) != "";
    assert after[j].image == after[|books|].image;
    assert books[j].image !in Unlinked(files + {ImageRef(name)}, after[|books|].image);
  }
}
