/** The `/books` router: create, list, get, update and delete book documents.
    Each handler runs atomically against the collection; the database driver
    is assumed to answer (its own failures are not modelled). */
module BooksRouter {
  import opened Optional
  import opened Json
  import opened Store
  import ObjectIds

  const TitleRequired := "Book title is required."
  const NoValidFields := "No valid fields to update."
  const BookDeleted := "Book deleted successfully."

  /** POST /books. A falsy or missing title is refused before the database is
      touched; otherwise the book is inserted under the id the database
      assigns, `newId`, with thumbnail defaulting to "" and no pages. */
  method CreateBook(db: BooksCollection, book: Dict, newId: string) returns (resp: Response<BookDoc>)
    requires ObjectIds.IsCanonical(newId) && newId !in db.books
    modifies db
    ensures !Truthy(Get(book, "title", Null)) ==> resp == Fail(400, TitleRequired) && db.books == old(db.books)
    ensures Truthy(Get(book, "title", Null)) ==>
      var created := Book(book["title"], Get(book, "thumbnail", Str("")), Some([]));
      && db.books == old(db.books)[newId := created]
      && resp == Ok(201, DocOf(newId, created))
    ensures old(db.Valid()) ==> db.Valid()
  {
    if !Truthy(Get(book, "title", Null)) {
      return Fail(400, TitleRequired);
    }
    var newBook := Book(book["title"], Get(book, "thumbnail", Str("")), Some([]));
    db.books := db.books[newId := newBook];
    resp := Ok(201, DocOf(newId, db.books[newId]));
  }

  /** GET /books: walks the cursor over the collection and appends each
      document, with its `_id` as text, to the answer. Every stored book
      appears exactly once; the cursor's order is not modelled. */
  method GetAllBooks(db: BooksCollection) returns (books: seq<BookDoc>)
    ensures |books| == |db.books|
    ensures forall i :: 0 <= i < |books| ==>
      books[i].id in db.books && books[i] == DocOf(books[i].id, db.books[books[i].id])
    ensures forall k :: k in db.books ==> exists i :: 0 <= i < |books| && books[i].id == k
    ensures forall i, j :: 0 <= i < j < |books| ==> books[i].id != books[j].id
  {
    books := [];
    var remaining := db.books.Keys;
    while remaining != {}
      invariant remaining <= db.books.Keys
      invariant |books| + |remaining| == |db.books.Keys|
      invariant forall i :: 0 <= i < |books| ==>
        books[i].id in db.books && books[i].id !in remaining && books[i] == DocOf(books[i].id, db.books[books[i].id])
      invariant forall k :: k in db.books && k !in remaining ==> exists i :: 0 <= i < |books| && books[i].id == k
      invariant forall i, j :: 0 <= i < j < |books| ==> books[i].id != books[j].id
      decreases remaining
    {
      var k :| k in remaining;
      ghost var before := books;
      books := books + [DocOf(k, db.books[k])];
      remaining := remaining - {k};
      forall k' | k' in db.books && k' !in remaining
        ensures exists i :: 0 <= i < |books| && books[i].id == k'
      {
        if k' == k {
          assert books[|books| - 1].id == k;
        } else {
          var i :| 0 <= i < |before| && before[i].id == k';
          assert books[i].id == k';
        }
      }
    }
    assert |db.books| == |db.books.Keys|;
  }

  /** GET /books/{book_id}. */
  method GetBook(db: BooksCollection, bookId: string) returns (resp: Response<BookDoc>)
    ensures ObjectIds.Parse(bookId).None? ==> resp == Fail(400, InvalidBookId)
    ensures ObjectIds.Parse(bookId).Some? && ObjectIds.Parse(bookId).value !in db.books ==>
      resp == Fail(404, BookNotFound)
    ensures ObjectIds.Parse(bookId).Some? && ObjectIds.Parse(bookId).value in db.books ==>
      var key := ObjectIds.Parse(bookId).value;
      resp == Ok(200, DocOf(key, db.books[key]))
  {
    var key := ObjectIds.Parse(bookId);
    if key.None? {
      return Fail(400, InvalidBookId);
    }
    if key.value !in db.books {
      return Fail(404, BookNotFound);
    }
    resp := Ok(200, DocOf(key.value, db.books[key.value]));
  }

  /** The `$set` document of an update: each field is present or not. */
  datatype BookPatch = BookPatch(title: Option<Value>, thumbnail: Option<Value>)

  /** PUT /books/{book_id}. Only `title` and `thumbnail` are taken from the
      body (whatever their values, an empty title included); with neither the
      answer is 400. The pages of the book are never touched. */
  method UpdateBook(db: BooksCollection, bookId: string, bookUpdate: Dict) returns (resp: Response<BookDoc>)
    modifies db
    ensures ObjectIds.Parse(bookId).None? ==> resp == Fail(400, InvalidBookId)
    ensures ObjectIds.Parse(bookId).Some? && "title" !in bookUpdate && "thumbnail" !in bookUpdate ==>
      resp == Fail(400, NoValidFields)
    ensures (&& ObjectIds.Parse(bookId).Some?
             && ("title" in bookUpdate || "thumbnail" in bookUpdate)
             && ObjectIds.Parse(bookId).value !in old(db.books)) ==> resp == Fail(404, BookNotFound)
    ensures resp.Fail? ==> db.books == old(db.books)
    ensures (&& ObjectIds.Parse(bookId).Some?
             && ("title" in bookUpdate || "thumbnail" in bookUpdate)
             && ObjectIds.Parse(bookId).value in old(db.books)) ==>
      var key := ObjectIds.Parse(bookId).value;
      var before := old(db.books)[key];
      var after := before.(title := Get(bookUpdate, "title", before.title),
                           thumbnail := Get(bookUpdate, "thumbnail", before.thumbnail));
      && db.books == old(db.books)[key := after]
      && resp == Ok(200, DocOf(key, after))
    ensures old(db.Valid()) ==> db.Valid()
  {
    var key := ObjectIds.Parse(bookId);
    if key.None? {
      return Fail(400, InvalidBookId);
    }
    var updateData := BookPatch(None, None);
    if "title" in bookUpdate {
      updateData := updateData.(title := Some(bookUpdate["title"]));
    }
    if "thumbnail" in bookUpdate {
      updateData := updateData.(thumbnail := Some(bookUpdate["thumbnail"]));
    }
    if updateData == BookPatch(None, None) {
      return Fail(400, NoValidFields);
    }
    if key.value !in db.books {
      return Fail(404, BookNotFound);
    }
    var book := db.books[key.value];
    if updateData.title.Some? {
      book := book.(title := updateData.title.value);
    }
    if updateData.thumbnail.Some? {
      book := book.(thumbnail := updateData.thumbnail.value);
    }
    db.books := db.books[key.value := book];
    resp := Ok(200, DocOf(key.value, db.books[key.value]));
  }

  /** DELETE /books/{book_id}: removes the book, or answers 404 when
      `delete_one` deleted nothing. No other book changes. */
  method DeleteBook(db: BooksCollection, bookId: string) returns (resp: Response<string>)
    modifies db
    ensures ObjectIds.Parse(bookId).None? ==> resp == Fail(400, InvalidBookId) && db.books == old(db.books)
    ensures ObjectIds.Parse(bookId).Some? ==>
      var key := ObjectIds.Parse(bookId).value;
      && (key !in old(db.books) ==> resp == Fail(404, BookNotFound) && db.books == old(db.books))
      && (key in old(db.books) ==> resp == Ok(204, BookDeleted) && db.books == old(db.books) - {key})
    ensures old(db.Valid()) ==> db.Valid()
  {
    var key := ObjectIds.Parse(bookId);
    if key.None? {
      return Fail(400, InvalidBookId);
    }
    var deletedCount := if key.value in db.books then 1 else 0;
    db.books := db.books - {key.value};
    if deletedCount == 0 {
      return Fail(404, BookNotFound);
    }
    resp := Ok(204, BookDeleted);
  }
}
