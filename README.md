# MindTag notebook: book and page stores and the book view, in Dafny

MindTag is a notebook app. A FastAPI backend stores books in a MongoDB
collection. Each book document holds a `title`, a `thumbnail` and a `pages`
array of `{page_id, content, page_number}` entries. A React frontend shows one
book at a time, page by page, and autosaves edits.

This project models three pieces of it.

- **The book router** (`mindtag-backend/routers/books.py`) is modelled in
  `books_router.dfy`. Its handlers create, list, get, update and delete books.
  They are module-level methods that take the collection as a parameter
  `db: Store.BooksCollection`; its `books` field maps a book id (24 lowercase
  hex digits) to its document, and the handlers that write change only it.
- **The page router** (`mindtag-backend/routers/notes.py`) is modelled in
  `notes_router.dfy`. Its handlers add, list, get, update and delete the pages
  embedded in a book. Three MongoDB array operators are given meaning on a
  sequence in `store.dfy`:
  - `$push` appends one page;
  - the positional `$set` changes the first page with the id;
  - `$pull` removes every page with the id and keeps the others in order.
- **The book view's controller** (`mindtag-frontend/src/pages/BookDetailsPage.jsx`)
  is modelled in `book_details.dfy`. The class `BookDetailsPage` holds the
  component's state, and each handler becomes a method that overwrites it.
  - The two sort comparators, the stable sort, the `reduce` for the largest
    page number, `findIndex` and the content patch are functions in
    `page_order.dfy`.
  - `localeCompare` on page ids is modelled as lexicographic order on
    character codes.
  - The autosave timer is a discrete state machine in `debounce.dfy`. A change
    event replaces the one pending save; a `Fire` event stands for the one
    second passing and sends the pending save.

ObjectId parsing is in `object_id.dfy`. The JSON request bodies (`dict`),
Python truthiness and `dict.get` are in `json.dfy`.

Each handler, in the backend and in the frontend, is one atomic step. The
outcome of each remote call is a parameter:
- a fetch that succeeds or fails;
- the id the database assigns;
- the page the server returns.

The single debounce slot has consequences that the model states as lemmas:
- An edit to one page followed within a second by an edit to another page
  loses the first edit. `Debounce.BurstSendsLast` shows that only the last
  change is ever sent.
- An edit is patched into `pages` only after the save succeeds.

The view's state invariant `BookDetailsPage.Valid` allows a current index of
-1. The next-page handler produces it on an empty book: `min(0 - 1, 0 + 1)`.
The rendered Next button is disabled on an empty book
(`mindtag-frontend/src/components/BookPagination.jsx:51`), so -1 arises only
when the handler runs with no pages, which the model allows because it does
not model the pagination bar. A later load that brings pages does not repair
-1, because only an index past the end is pulled back. In that state the
placeholder page is shown.

## Model

| member | source | states |
|---|---|---|
| ObjectIds.Parse | mindtag-backend/routers/notes.py:19-22 | an id is accepted exactly when it is 24 hex digits, in either case; the parsed id is canonical, each digit lowercased |
| ObjectIds.ParsePrinted | mindtag-backend/routers/books.py:28-30 | the text form of a stored id parses back to itself |
| ObjectIds.ParseIdempotent | mindtag-backend/routers/notes.py:19-22 | parsing a parsed id gives the same id again |
| Json.Truthy | mindtag-backend/routers/books.py:13 | a body field fails `if not x` exactly when it is None, False, 0, "", [] or {}, as at notes.py:16 too |
| Store.Push | mindtag-backend/routers/notes.py:40-43 | `$push` appends exactly one page at the end and keeps every earlier page; a missing `pages` field counts as empty |
| Store.FirstIndex | mindtag-backend/routers/notes.py:117-120 | the positional operator's target is the first page with the id |
| Store.Patched | mindtag-backend/routers/notes.py:108-112 | a page patch sets `content` and `page_number` when each is given and keeps the page id |
| Store.SetFirst | mindtag-backend/routers/notes.py:117-120 | positional `$set` changes only the first page with the id; all other pages and every id stay the same |
| Store.Pull | mindtag-backend/routers/notes.py:146-149 | `$pull` keeps exactly the pages whose id differs and never grows the array |
| Store.PullConcat | mindtag-backend/routers/notes.py:146-149 | `$pull` filters each part of the array independently, so the remaining pages keep their relative order |
| Store.PullUnchangedIff | mindtag-backend/routers/notes.py:153-154 | `$pull` modifies nothing exactly when no page has the id |
| Store.PullDistinct | mindtag-backend/routers/notes.py:146-149 | with distinct ids, `$pull` removes exactly one page when the id is present and none otherwise, and the ids stay distinct |
| Store.PushFreshDistinct | mindtag-backend/routers/notes.py:34-43 | pushing a page with a fresh id keeps page ids distinct |
| BooksRouter.CreateBook | mindtag-backend/routers/books.py:7-32 | a falsy or missing title gives 400 and no insert; otherwise the book is stored under the new id with its title, thumbnail defaulting to "" and empty pages, and returned with that id; the store invariant is kept |
| BooksRouter.GetAllBooks | mindtag-backend/routers/books.py:34-46 | the list holds every stored book exactly once, each as stored, with its id |
| BooksRouter.GetBook | mindtag-backend/routers/books.py:48-65 | a malformed id gives 400, an unknown id 404, otherwise the stored book with its id |
| BooksRouter.UpdateBook | mindtag-backend/routers/books.py:67-100 | a malformed id gives 400; neither `title` nor `thumbnail` in the body gives 400; an unknown id gives 404; otherwise only the given fields change, pages and other books are untouched, and the updated book is returned |
| BooksRouter.DeleteBook | mindtag-backend/routers/books.py:102-120 | a malformed id gives 400; 404 when no book was deleted; otherwise exactly that book is removed and the others are unchanged |
| NotesRouter.AddPageToBook | mindtag-backend/routers/notes.py:7-48 | falsy content gives 400 before the id is parsed; a malformed id gives 400 and an unknown book 404, both with the store unchanged; otherwise exactly one page is appended to that book, with the fresh id, the given content and the caller's `page_number` or the page count + 1; distinct page ids are kept |
| NotesRouter.GetBookPages | mindtag-backend/routers/notes.py:50-68 | a malformed id gives 400 and an unknown book 404; otherwise the book's pages in stored order, or [] without a `pages` field |
| NotesRouter.GetSingleBookPage | mindtag-backend/routers/notes.py:70-91 | a malformed id gives 400; 404 when the book is missing or has no page with the id; otherwise the first page with that id |
| NotesRouter.UpdateBookPage | mindtag-backend/routers/notes.py:94-130 | a malformed id gives 400; neither `content` nor `page_number` gives 400; 404 when that book is missing or has no page with the id; otherwise only the first matching page changes, and it is returned |
| NotesRouter.DeleteBookPage | mindtag-backend/routers/notes.py:133-156 | a malformed id gives 400; a missing book gives 404 "Book not found."; a book without the page gives 404 "Page not found in the specified book."; otherwise every page with the id is removed, the rest keep their order, and the ids stay distinct |
| PageOrder.Compare | mindtag-frontend/src/pages/BookDetailsPage.jsx:92-97 | both comparators put the lower page number first; the load-time one answers 0 only for the same number and id, the add-time one (line 135) for the same number |
| PageOrder.CompareStrings | mindtag-frontend/src/pages/BookDetailsPage.jsx:96 | the id comparison answers -1, 0 or 1, and 0 exactly for equal ids |
| PageOrder.CompareStringsFlip | mindtag-frontend/src/pages/BookDetailsPage.jsx:96 | swapping the ids negates the comparison |
| PageOrder.CompareStringsTransitive | mindtag-frontend/src/pages/BookDetailsPage.jsx:96 | the id comparison is transitive |
| PageOrder.LeTotal | mindtag-frontend/src/pages/BookDetailsPage.jsx:92-97 | both comparators order any two pages one way or the other |
| PageOrder.LeTransitive | mindtag-frontend/src/pages/BookDetailsPage.jsx:92-97 | both comparators are transitive |
| PageOrder.KeyAntisymmetric | mindtag-frontend/src/pages/BookDetailsPage.jsx:92-97 | the load comparator ties only pages with the same number and the same id |
| PageOrder.KeySortedIsNumberSorted | mindtag-frontend/src/pages/BookDetailsPage.jsx:92-98 | pages in load order are also in page-number order |
| PageOrder.InsertPermutes | mindtag-frontend/src/pages/BookDetailsPage.jsx:92-98 | inserting a page into the sorted rest adds exactly that page and loses none |
| PageOrder.Sort | mindtag-frontend/src/pages/BookDetailsPage.jsx:92-98 | the sort is a permutation of its input |
| PageOrder.InsertSorted | mindtag-frontend/src/pages/BookDetailsPage.jsx:92-98 | insertion keeps a sorted sequence sorted |
| PageOrder.SortSorted | mindtag-frontend/src/pages/BookDetailsPage.jsx:92-98 | the sort's output is sorted by its comparator |
| PageOrder.SortOfSorted | mindtag-frontend/src/pages/BookDetailsPage.jsx:135 | sorting pages already in order leaves them as they are, as a stable sort does |
| PageOrder.InsertBeforeLast | mindtag-frontend/src/pages/BookDetailsPage.jsx:135 | inserting a page that is not after the last one leaves the last one last |
| PageOrder.SortAppendGreatest | mindtag-frontend/src/pages/BookDetailsPage.jsx:135 | appending a page not below any other and sorting is sorting and then appending |
| PageOrder.InsertDistinct | mindtag-frontend/src/pages/BookDetailsPage.jsx:92-98 | inserting a page with a new id keeps ids distinct |
| PageOrder.SortDistinct | mindtag-frontend/src/pages/BookDetailsPage.jsx:92-98 | sorting keeps ids distinct |
| PageOrder.KeySortedUnique | mindtag-frontend/src/pages/BookDetailsPage.jsx:92-98 | with distinct ids there is only one arrangement in load order |
| PageOrder.LoadOrderDeterministic | mindtag-frontend/src/pages/BookDetailsPage.jsx:92-98 | with distinct ids the load order does not depend on the order the server sent |
| PageOrder.MaxFrom | mindtag-frontend/src/pages/BookDetailsPage.jsx:128 | the fold's result is at least its start, bounds every page number, and is the start or some page's number |
| PageOrder.NextPageNumber | mindtag-frontend/src/pages/BookDetailsPage.jsx:128-131 | the requested number is at least 1, above every page number, and either 1 or one more than an existing number |
| PageOrder.NewestPageLast | mindtag-frontend/src/pages/BookDetailsPage.jsx:128-137 | a page numbered max + 1, appended to ordered pages, stays last after the add-time sort, and the others keep their places |
| PageOrder.FindIndex | mindtag-frontend/src/pages/BookDetailsPage.jsx:137 | the result is -1 exactly when no page has the id, and otherwise the first position with the id |
| PageOrder.FindIndexOfMember | mindtag-frontend/src/pages/BookDetailsPage.jsx:137 | a page in the list is found by its id |
| PageOrder.FindIndexOfNewest | mindtag-frontend/src/pages/BookDetailsPage.jsx:137 | a page whose id no earlier page has is found at its own position |
| PageOrder.SetContent | mindtag-frontend/src/pages/BookDetailsPage.jsx:149-151 | every page with the id gets the new content and every other page is unchanged |
| PageOrder.SetContentKeepsOrder | mindtag-frontend/src/pages/BookDetailsPage.jsx:149-151 | the content patch keeps every id and number, and so keeps the order |
| Debounce.Next | mindtag-frontend/src/pages/BookDetailsPage.jsx:144-156 | a change fills the one timer slot with itself and sends nothing; an expiry empties the slot and sends exactly what it held, so only an expiry sends |
| Debounce.Run | mindtag-frontend/src/pages/BookDetailsPage.jsx:144-156 | a run of events sends at most one save per event; what is left pending was pending at the start or is one of the changes; after a final expiry nothing is pending |
| Debounce.RunConcat | mindtag-frontend/src/pages/BookDetailsPage.jsx:144-157 | running two stretches of events one after the other composes slots and concatenates the saves sent |
| Debounce.BurstKeepsLast | mindtag-frontend/src/pages/BookDetailsPage.jsx:145-146 | a burst of changes sends nothing and leaves only the last change pending, whatever page each is for |
| Debounce.BurstSendsLast | mindtag-frontend/src/pages/BookDetailsPage.jsx:144-156 | a burst followed by one expiry sends exactly the last change and no earlier one |
| Debounce.SpacedSendsEach | mindtag-frontend/src/pages/BookDetailsPage.jsx:144-156 | changes spaced further apart than the delay are each sent, in order |
| Debounce.AtMostOneSendPerFire | mindtag-frontend/src/pages/BookDetailsPage.jsx:146-156 | no more saves are sent than timers expire |
| Debounce.SentWasScheduled | mindtag-frontend/src/pages/BookDetailsPage.jsx:144-156 | every save sent was pending at the start or was one of the changes |
| BookDetails.PreviousIndex | mindtag-frontend/src/pages/BookDetailsPage.jsx:119 | previous never goes below 0, steps back by one, and does nothing at 0 |
| BookDetails.NextIndex | mindtag-frontend/src/pages/BookDetailsPage.jsx:123 | next never passes the last index, steps forward by one, and does nothing at the last page; -1 with no pages |
| BookDetails.NavigationStaysOnAPage | mindtag-frontend/src/pages/BookDetailsPage.jsx:118-124 | from a page both buttons land on a page, and each does nothing at its end |
| BookDetails.NavigationInverse | mindtag-frontend/src/pages/BookDetailsPage.jsx:118-124 | away from the ends, previous undoes next and next undoes previous |
| BookDetails.AddedPageLands | mindtag-frontend/src/pages/BookDetailsPage.jsx:134-137 | after an add the pages are in page-number order, hold exactly the old pages plus the new one, and the new id is found; a page numbered max + 1 is appended last |
| BookDetails.BookDetailsPage.constructor | mindtag-frontend/src/pages/BookDetailsPage.jsx:76-82 | the view starts loading, with no book, no pages, index 0, no error and no pending save |
| BookDetails.BookDetailsPage.CurrentPage | mindtag-frontend/src/pages/BookDetailsPage.jsx:174 | the current page, when there is one, is one of the pages; with the invariant it is missing only for an empty book or index -1 |
| BookDetails.BookDetailsPage.Render | mindtag-frontend/src/pages/BookDetailsPage.jsx:170-201 | loading comes first, then the error screen showing exactly the stored error text, then "not found" without a book; otherwise the book's title with the page at `currentPageIndex`, editable exactly when that index holds a page, and the placeholder otherwise, which happens only for an empty book or index -1; the pagination bar gets the shown page's number and the page count |
| BookDetails.BookDetailsPage.Load | mindtag-frontend/src/pages/BookDetailsPage.jsx:84-112 | on success the pages are the fetched ones sorted by number then id, and the index is pulled back to the last page when past the end, kept otherwise, and 0 for an empty book; on failure pages and index are kept and the error is set; loading ends; the invariant is kept |
| BookDetails.BookDetailsPage.PreviousPage | mindtag-frontend/src/pages/BookDetailsPage.jsx:118-120 | only the index changes, as `PreviousIndex`; the invariant is kept |
| BookDetails.BookDetailsPage.NextPage | mindtag-frontend/src/pages/BookDetailsPage.jsx:122-124 | only the index changes, as `NextIndex`; the invariant is kept |
| BookDetails.BookDetailsPage.AddPage | mindtag-frontend/src/pages/BookDetailsPage.jsx:126-142 | the request asks for max + 1; on a returned page the list grows by exactly that page, is re-sorted by number, and the index points at the page's id; with max + 1 numbering the page is appended last, and last is where the index points when its id is new; on failure pages are unchanged and the error is set |
| BookDetails.BookDetailsPage.ContentChange | mindtag-frontend/src/pages/BookDetailsPage.jsx:144-146 | the change replaces whatever save was pending, for any page, sends nothing, and touches no other state |
| BookDetails.BookDetailsPage.TimerFires | mindtag-frontend/src/pages/BookDetailsPage.jsx:146-156 | the pending save, and only it, is sent and the slot empties; on success only pages with its id get the new content; on failure pages are unchanged and the error is set; the invariant is kept |

## Left out

- Database and driver failures (the 500 answers of an unreachable MongoDB) are not modelled: every backend handler assumes the database answers.
- NotesRouter.AddPageToBook: the second 404 after `$push` matches nothing (notes.py:45-46) cannot happen in the model, because a handler runs atomically and the book was found just before.
- Id generation: the id `insert_one` assigns and `str(ObjectId())` for a page are parameters required to be well-formed and fresh.
- BooksRouter.GetAllBooks: the cursor's order is not modelled; the list is only shown to contain every book once.
- BooksRouter.DeleteBook and NotesRouter.DeleteBookPage: the message body returned with status 204 is kept in the model even though a 204 answer carries no body over HTTP.
- JSON numbers are integers: floating-point values, such as a `page_number` of 2.5 (stored as sent) or a `content` of 0.0 (falsy in Python, so 400), are not modelled. Other JSON types are carried as opaque `Json.Value`s in the backend and not at all in the frontend.
- Frontend page numbers are integers: a page without `page_number` is not modelled, so the `|| 0` default of the max fold and a comparator that returns NaN do not arise.
- `localeCompare` is modelled as character-code order; locale collation is not modelled.
- Real time, `setTimeout`/`clearTimeout`, React's batching of state setters, and the interleaving of concurrent requests are replaced by atomic steps and the `Fire` event; a save still running when another timer fires is not modelled.
- The timer is not cleared when the view unmounts, and a save can land after navigation; this is not modelled.
- `handleDeleteBook`, the confirmation dialog and navigation back to the list are not modelled (rendering and routing).
- The page editor, pagination buttons, home page, API client, app wiring and database connection are not modelled (DOM, rendering and transport).
