/** The `/books/{book_id}/pages` router: the pages embedded in a book
    document are added with `$push`, changed with positional `$set` and
    removed with `$pull`. Each handler runs atomically against the
    collection; the database driver is assumed to answer. */
module NotesRouter {
  import opened Optional
  import opened Json
  import opened Store
  import ObjectIds

  const ContentRequired := "Page content is required."
  const PageAdded := "Page added successfully"
  const BookOrPageNotFound := "Book or Page not found."
  const NoValidPageFields := "No valid fields to update for the page."
  const PageNotInBook := "Page not found in the specified book."
  const PageDeleted := "Page deleted successfully."

  /** The body of a successful POST: a message and the page as stored. */
  datatype AddedPage = AddedPage(message: string, page: StoredPage)

  /** POST /books/{book_id}/pages. The content check comes first, before the
      id is even parsed. The new page gets the fresh id `newPageId` (the text
      of a new `ObjectId()`), the caller's `page_number` when the key is
      present and otherwise one more than the number of pages, and is pushed
      at the end of that book's pages; nothing else changes. */
  method AddPageToBook(db: BooksCollection, bookId: string, page: Dict, newPageId: string)
    returns (resp: Response<AddedPage>)
    requires ObjectIds.IsCanonical(newPageId) && FreshPageId(db.books, newPageId)
    modifies db
    ensures !Truthy(Get(page, "content", Null)) ==> resp == Fail(400, ContentRequired)
    ensures Truthy(Get(page, "content", Null)) && ObjectIds.Parse(bookId).None? ==> resp == Fail(400, InvalidBookId)
    ensures (&& Truthy(Get(page, "content", Null))
             && ObjectIds.Parse(bookId).Some?
             && ObjectIds.Parse(bookId).value !in old(db.books)) ==> resp == Fail(404, BookNotFound)
    ensures resp.Fail? ==> db.books == old(db.books)
    ensures (&& Truthy(Get(page, "content", Null))
             && ObjectIds.Parse(bookId).Some?
             && ObjectIds.Parse(bookId).value in old(db.books)) ==>
      var key := ObjectIds.Parse(bookId).value;
      var before := old(db.books)[key];
      var added := StoredPage(newPageId, page["content"], Get(page, "page_number", Num(|PagesOf(before)| + 1)));
      && db.books == old(db.books)[key := before.(pages := Some(PagesOf(before) + [added]))]
      && resp == Ok(201, AddedPage(PageAdded, added))
    ensures old(db.Valid()) ==> db.Valid()
  {
    if !Truthy(Get(page, "content", Null)) {
      return Fail(400, ContentRequired);
    }
    var key := ObjectIds.Parse(bookId);
    if key.None? {
      return Fail(400, InvalidBookId);
    }
    if key.value !in db.books {
      return Fail(404, BookNotFound);
    }
    var book := db.books[key.value];
    var nextPageNumber := |PagesOf(book)| + 1;
    var newPage := StoredPage(newPageId, page["content"], Get(page, "page_number", Num(nextPageNumber)));
    if db.Valid() {
      PushFreshDistinct(book.pages, newPage);
      ReplaceBookValid(db.books, key.value, book.(pages := Some(Push(book.pages, newPage))));
    }
    db.books := db.books[key.value := book.(pages := Some(Push(book.pages, newPage)))];
    resp := Ok(201, AddedPage(PageAdded, newPage));
  }

  /** GET /books/{book_id}/pages: the book's pages in stored order, or [] when
      the document has no `pages` field. */
  method GetBookPages(db: BooksCollection, bookId: string) returns (resp: Response<seq<StoredPage>>)
    ensures ObjectIds.Parse(bookId).None? ==> resp == Fail(400, InvalidBookId)
    ensures ObjectIds.Parse(bookId).Some? && ObjectIds.Parse(bookId).value !in db.books ==>
      resp == Fail(404, BookNotFound)
    ensures ObjectIds.Parse(bookId).Some? && ObjectIds.Parse(bookId).value in db.books ==>
      var book := db.books[ObjectIds.Parse(bookId).value];
      && (book.pages.Some? ==> resp == Ok(200, book.pages.value))
      && (book.pages.None? ==> resp == Ok(200, []))
  {
    var key := ObjectIds.Parse(bookId);
    if key.None? {
      return Fail(400, InvalidBookId);
    }
    if key.value !in db.books {
      return Fail(404, BookNotFound);
    }
    resp := Ok(200, PagesOf(db.books[key.value]));
  }

  /** GET /books/{book_id}/pages/{page_id}: the first page with that id, as
      the projection `pages.$` returns it. */
  method GetSingleBookPage(db: BooksCollection, bookId: string, pageId: string) returns (resp: Response<StoredPage>)
    ensures ObjectIds.Parse(bookId).None? ==> resp == Fail(400, InvalidBookId)
    ensures ObjectIds.Parse(bookId).Some? ==>
      var key := ObjectIds.Parse(bookId).value;
      && (key !in db.books || !HasPage(PagesOf(db.books[key]), pageId) ==> resp == Fail(404, BookOrPageNotFound))
      && (key in db.books && HasPage(PagesOf(db.books[key]), pageId) ==>
            && resp.Ok? && resp.status == 200 && resp.body.pageId == pageId
            && exists k :: 0 <= k < |PagesOf(db.books[key])| && PagesOf(db.books[key])[k] == resp.body
                 && forall j :: 0 <= j < k ==> PagesOf(db.books[key])[j].pageId != pageId)
  {
    var key := ObjectIds.Parse(bookId);
    if key.None? {
      return Fail(400, InvalidBookId);
    }
    if key.value !in db.books || !HasPage(PagesOf(db.books[key.value]), pageId) {
      return Fail(404, BookOrPageNotFound);
    }
    var ps := PagesOf(db.books[key.value]);
    var i := FirstIndex(ps, pageId);
    resp := Ok(200, ps[i]);
  }

  /** PUT /books/{book_id}/pages/{page_id}. Only the `content` and
      `page_number` keys of the body are applied, each when present whatever
      its value; with neither the answer is 400. Only the first page with
      that id changes, and the changed page is returned. */
  method UpdateBookPage(db: BooksCollection, bookId: string, pageId: string, pageUpdate: Dict)
    returns (resp: Response<StoredPage>)
    modifies db
    ensures ObjectIds.Parse(bookId).None? ==> resp == Fail(400, InvalidBookId)
    ensures ObjectIds.Parse(bookId).Some? && "content" !in pageUpdate && "page_number" !in pageUpdate ==>
      resp == Fail(400, NoValidPageFields)
    ensures (&& ObjectIds.Parse(bookId).Some?
             && ("content" in pageUpdate || "page_number" in pageUpdate)
             && (|| ObjectIds.Parse(bookId).value !in old(db.books)
                 || !HasPage(PagesOf(old(db.books)[ObjectIds.Parse(bookId).value]), pageId)))
      ==> resp == Fail(404, BookOrPageNotFound)
    ensures resp.Fail? ==> db.books == old(db.books)
    ensures (&& ObjectIds.Parse(bookId).Some?
             && ("content" in pageUpdate || "page_number" in pageUpdate)
             && ObjectIds.Parse(bookId).value in old(db.books)
             && HasPage(PagesOf(old(db.books)[ObjectIds.Parse(bookId).value]), pageId)) ==>
      var key := ObjectIds.Parse(bookId).value;
      var ps := PagesOf(old(db.books)[key]);
      var patch := PagePatch(if "content" in pageUpdate then Some(pageUpdate["content"]) else None,
                             if "page_number" in pageUpdate then Some(pageUpdate["page_number"]) else None);
      && db.books == old(db.books)[key := old(db.books)[key].(pages := Some(SetFirst(ps, pageId, patch)))]
      && resp == Ok(200, Patched(ps[FirstIndex(ps, pageId)], patch))
    ensures old(db.Valid()) ==> db.Valid()
  {
    var key := ObjectIds.Parse(bookId);
    if key.None? {
      return Fail(400, InvalidBookId);
    }
    var updateFields := PagePatch(None, None);
    if "content" in pageUpdate {
      updateFields := updateFields.(content := Some(pageUpdate["content"]));
    }
    if "page_number" in pageUpdate {
      updateFields := updateFields.(pageNumber := Some(pageUpdate["page_number"]));
    }
    if updateFields == PagePatch(None, None) {
      return Fail(400, NoValidPageFields);
    }
    if key.value !in db.books || !HasPage(PagesOf(db.books[key.value]), pageId) {
      return Fail(404, BookOrPageNotFound);
    }
    var book := db.books[key.value];
    var ps := PagesOf(book);
    var updated := SetFirst(ps, pageId, updateFields);
    db.books := db.books[key.value := book.(pages := Some(updated))];
    // The page is fetched again by id; ids did not change, so it is the same slot.
    assert HasPage(updated, pageId) && FirstIndex(updated, pageId) == FirstIndex(ps, pageId);
    resp := Ok(200, updated[FirstIndex(updated, pageId)]);
  }

  /** DELETE /books/{book_id}/pages/{page_id}. Every page with that id is
      removed and the others keep their order. 404 "Book not found." when
      the book is missing, 404 "Page not found in the specified book." when
      `$pull` changed nothing, which is exactly when no page has the id. */
  method DeleteBookPage(db: BooksCollection, bookId: string, pageId: string) returns (resp: Response<string>)
    modifies db
    ensures ObjectIds.Parse(bookId).None? ==> resp == Fail(400, InvalidBookId)
    ensures ObjectIds.Parse(bookId).Some? && ObjectIds.Parse(bookId).value !in old(db.books) ==>
      resp == Fail(404, BookNotFound)
    ensures (&& ObjectIds.Parse(bookId).Some?
             && ObjectIds.Parse(bookId).value in old(db.books)
             && !HasPage(PagesOf(old(db.books)[ObjectIds.Parse(bookId).value]), pageId))
      ==> resp == Fail(404, PageNotInBook)
    ensures resp.Fail? ==> db.books == old(db.books)
    ensures (&& ObjectIds.Parse(bookId).Some?
             && ObjectIds.Parse(bookId).value in old(db.books)
             && HasPage(PagesOf(old(db.books)[ObjectIds.Parse(bookId).value]), pageId)) ==>
      var key := ObjectIds.Parse(bookId).value;
      && db.books == old(db.books)[key := old(db.books)[key].(pages := Some(Pull(PagesOf(old(db.books)[key]), pageId)))]
      && resp == Ok(204, PageDeleted)
    ensures old(db.Valid()) ==> db.Valid()
  {
    var key := ObjectIds.Parse(bookId);
    if key.None? {
      return Fail(400, InvalidBookId);
    }
    if key.value !in db.books {
      return Fail(404, BookNotFound);
    }
    var book := db.books[key.value];
    if book.pages.None? {
      // `$pull` on a missing array matches the book and modifies nothing.
      return Fail(404, PageNotInBook);
    }
    var remaining := Pull(book.pages.value, pageId);
    PullUnchangedIff(book.pages.value, pageId);
    if remaining == book.pages.value {
      return Fail(404, PageNotInBook);
    }
    ghost var wasValid := db.Valid();
    db.books := db.books[key.value := book.(pages := Some(remaining))];
    if wasValid {
      PullDistinct(book.pages.value, pageId);
    }
    resp := Ok(204, PageDeleted);
  }
}
