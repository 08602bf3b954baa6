/** The book view's controller: the state the component keeps (`book`,
    `pages`, `currentPageIndex`, `loading`, `error` and the debounce timer
    slot) and the handlers that overwrite it. Each remote call is an atomic
    step whose outcome, success or failure, is a parameter. */
module BookDetails {
  import opened Optional
  import opened PageOrder
  import opened Debounce

  datatype BookInfo = BookInfo(id: string, title: string)

  /** How the two fetches of a load end: the book fetch fails, the book
      arrives and the pages fetch fails, or both arrive. */
  datatype LoadReply =
    | BookFailed(message: string)
    | PagesFailed(book: BookInfo, message: string)
    | Loaded(book: BookInfo, pages: seq<Page>)

  /** How the add-page request ends: it throws, it answers without a `page`,
      or it answers with the stored page. */
  datatype AddReply = AddFailed(message: string) | AddedWithoutPage | Added(page: Page)

  datatype SaveReply = Saved | SaveFailed(message: string)

  /** The body the add-page handler posts. */
  datatype NewPageRequest = NewPageRequest(content: string, pageNumber: int)

  const NewPageContent := "Start writing on this new page..."
  const EmptyBookText := "This book has no pages yet. Click 'Add New Page' to start writing!"

  /** The inert page shown when no page sits at the current index. */
  const Placeholder := Page("empty", EmptyBookText, 0)

  /** What the component renders. `editable` is false for the placeholder;
      `shownNumber` and `totalPages` feed the pagination bar. */
  datatype View =
    | LoadingScreen
    | ErrorScreen(message: string)
    | NotFound
    | Reading(title: string, page: Page, editable: bool, shownNumber: int, totalPages: int)

  /** `Math.max(0, i - 1)`: one step back, never below 0. */
  function PreviousIndex(i: int): (r: int)
    ensures r >= 0
    ensures i >= 1 ==> r == i - 1
    ensures i <= 0 ==> r == 0
  {
    if i - 1 < 0 then 0 else i - 1
  }

  /** `Math.min(count - 1, i + 1)`: one step forward, never past the last
      page; -1 when there are no pages. */
  function NextIndex(count: int, i: int): (r: int)
    ensures r <= count - 1
    ensures i < count - 1 ==> r == i + 1
    ensures i >= count - 1 ==> r == count - 1
  {
    if count - 1 < i + 1 then count - 1 else i + 1
  }

  /** From a page, both buttons land on a page; at the ends they do nothing. */
  lemma NavigationStaysOnAPage(count: int, i: int)
    requires 0 <= i < count
    ensures 0 <= PreviousIndex(i) < count && 0 <= NextIndex(count, i) < count
    ensures i == 0 ==> PreviousIndex(i) == i
    ensures i == count - 1 ==> NextIndex(count, i) == i
  {
  }

  /** Away from the ends, previous undoes next and next undoes previous. */
  lemma NavigationInverse(count: int, i: int)
    ensures 0 <= i < count - 1 ==> PreviousIndex(NextIndex(count, i)) == i
    ensures 0 < i < count ==> NextIndex(count, PreviousIndex(i)) == i
  {
  }

  /** Where an added page lands: the add-time sort yields pages in
      page-number order holding the old ones and the new one, and the new id
      is found. A page numbered as requested, added to ordered pages, is
      appended in place and, when its id is new, found last. */
  lemma AddedPageLands(pages: seq<Page>, p: Page)
    ensures Sorted(ByNumber, Sort(ByNumber, pages + [p]))
    ensures multiset(Sort(ByNumber, pages + [p])) == multiset(pages) + multiset{p}
    ensures 0 <= FindIndex(Sort(ByNumber, pages + [p]), p.pageId)
    ensures Sorted(ByNumber, pages) && p.pageNumber == NextPageNumber(pages) ==>
      Sort(ByNumber, pages + [p]) == pages + [p]
    ensures (&& Sorted(ByNumber, pages) && p.pageNumber == NextPageNumber(pages)
             && forall i :: 0 <= i < |pages| ==> pages[i].pageId != p.pageId)
      ==> FindIndex(Sort(ByNumber, pages + [p]), p.pageId) == |pages|
  {
    var u := Sort(ByNumber, pages + [p]);
    SortSorted(ByNumber, pages + [p]);
    assert p in multiset(u);
    FindIndexOfMember(u, p);
    if Sorted(ByNumber, pages) && p.pageNumber == NextPageNumber(pages) {
      NewestPageLast(pages, p);
      if forall i :: 0 <= i < |pages| ==> pages[i].pageId != p.pageId {
        FindIndexOfNewest(pages, p);
      }
    }
  }

  class BookDetailsPage {
    var book: Option<BookInfo>
    var pages: seq<Page>
    var currentPageIndex: int
    var loading: bool
    var error: Option<string>
    /** `debounceTimeoutRef`: the one save scheduled, for whichever page. */
    var pending: Option<Edit>

    /** The index is at least -1 and, when there are pages, below their
        count; the pages are in page-number order. */
    ghost predicate Valid()
      reads this
    {
      && -1 <= currentPageIndex
      && (|pages| > 0 ==> currentPageIndex < |pages|)
      && Sorted(ByNumber, pages)
    }

    constructor ()
      ensures book == None && pages == [] && currentPageIndex == 0
      ensures loading && error == None && pending == None
      ensures Valid()
    {
      book, pages, currentPageIndex := None, [], 0;
      loading, error, pending := true, None, None;
    }

    /** `pages[currentPageIndex]`, undefined (None) off either end. */
    function CurrentPage(): (r: Option<Page>)
      reads this
      ensures r.Some? ==> r.value in pages
      ensures Valid() && r.None? ==> pages == [] || currentPageIndex == -1
    {
      if 0 <= currentPageIndex < |pages| then Some(pages[currentPageIndex]) else None
    }

    /** The screen: loading, then an error, then a missing book, and
        otherwise the current page or the placeholder. */
    function Render(): (v: View)
      reads this
      ensures v.LoadingScreen? <==> loading
      ensures v.ErrorScreen? <==> !loading && error.Some?
      ensures v.Reading? ==> book.Some? && v.totalPages == |pages| && v.shownNumber == v.page.pageNumber
      ensures v.Reading? && v.editable ==> v.page in pages
      ensures v.Reading? && !v.editable ==> v.page == Placeholder
      ensures Valid() && v.Reading? && !v.editable ==> pages == [] || currentPageIndex == -1
      ensures v.ErrorScreen? ==> v.message == error.value
      ensures v.NotFound? <==> !loading && error.None? && book.None?
      ensures v.Reading? ==> v.title == book.value.title
      ensures v.Reading? ==> (v.editable <==> CurrentPage().Some?)
      ensures v.Reading? && v.editable ==> v.page == CurrentPage().value
    {
      if loading then LoadingScreen
      else if error.Some? then ErrorScreen(error.value)
      else if book.None? then NotFound
      else match CurrentPage()
        case Some(p) => Reading(book.value.title, p, true, p.pageNumber, |pages|)
        case None => Reading(book.value.title, Placeholder, false, 0, |pages|)
    }

    /** `fetchBookAndPages`: the fetched pages are sorted by page number and
        then by id; the index is pulled back to the last page when it is past
        the end, left alone otherwise, and reset to 0 for an empty book. A
        failure keeps the old pages and index and records the error. */
    method Load(reply: LoadReply)
      modifies this
      ensures !loading && pending == old(pending)
      ensures reply.BookFailed? ==>
        && book == old(book) && pages == old(pages) && currentPageIndex == old(currentPageIndex)
        && error == Some("Failed to load book: " + reply.message)
      ensures reply.PagesFailed? ==>
        && book == Some(reply.book) && pages == old(pages) && currentPageIndex == old(currentPageIndex)
        && error == Some("Failed to load book: " + reply.message)
      ensures reply.Loaded? ==>
        && book == Some(reply.book) && error == None
        && pages == Sort(ByNumberThenId, reply.pages)
        && Sorted(ByNumberThenId, pages)
        && (|pages| > 0 && old(currentPageIndex) >= |pages| ==> currentPageIndex == |pages| - 1)
        && (|pages| > 0 && old(currentPageIndex) < |pages| ==> currentPageIndex == old(currentPageIndex))
        && (|pages| == 0 ==> currentPageIndex == 0)
      ensures old(Valid()) ==> Valid()
    {
      loading := true;
      error := None;
      match reply {
        case BookFailed(message) =>
          error := Some("Failed to load book: " + message);
        case PagesFailed(b, message) =>
          book := Some(b);
          error := Some("Failed to load book: " + message);
        case Loaded(b, pagesData) =>
          book := Some(b);
          var sortedPages := Sort(ByNumberThenId, pagesData);
          SortSorted(ByNumberThenId, pagesData);
          KeySortedIsNumberSorted(sortedPages);
          pages := sortedPages;
          if |sortedPages| > 0 {
            if currentPageIndex >= |sortedPages| {
              currentPageIndex := |sortedPages| - 1;
            }
          } else {
            currentPageIndex := 0;
          }
      }
      loading := false;
    }

    method PreviousPage()
      modifies this
      ensures currentPageIndex == PreviousIndex(old(currentPageIndex))
      ensures pages == old(pages) && book == old(book) && loading == old(loading)
      ensures error == old(error) && pending == old(pending)
      ensures old(Valid()) ==> Valid()
    {
      currentPageIndex := PreviousIndex(currentPageIndex);
    }

    method NextPage()
      modifies this
      ensures currentPageIndex == NextIndex(|pages|, old(currentPageIndex))
      ensures pages == old(pages) && book == old(book) && loading == old(loading)
      ensures error == old(error) && pending == old(pending)
      ensures old(Valid()) ==> Valid()
    {
      currentPageIndex := NextIndex(|pages|, currentPageIndex);
    }

    /** `handleAddPage`: asks for page number max + 1; on a page in the
        answer, appends it, sorts by page number (stably) and moves to the
        first page with its id. When the server echoes the requested number,
        the new page is last and the others keep their places. A failure
        changes no page and records the error. */
    method AddPage(reply: AddReply) returns (request: NewPageRequest)
      modifies this
      ensures request == NewPageRequest(NewPageContent, NextPageNumber(old(pages)))
      ensures book == old(book) && loading == old(loading) && pending == old(pending)
      ensures reply.AddFailed? ==>
        && pages == old(pages) && currentPageIndex == old(currentPageIndex)
        && error == Some("Failed to add new page: " + reply.message)
      ensures reply.AddedWithoutPage? ==>
        pages == old(pages) && currentPageIndex == old(currentPageIndex) && error == old(error)
      ensures reply.Added? ==>
        && pages == Sort(ByNumber, old(pages) + [reply.page])
        && multiset(pages) == multiset(old(pages)) + multiset{reply.page}
        && currentPageIndex == FindIndex(pages, reply.page.pageId)
        && 0 <= currentPageIndex < |pages| && pages[currentPageIndex].pageId == reply.page.pageId
        && error == old(error)
      ensures reply.Added? && old(Valid()) && reply.page.pageNumber == request.pageNumber ==>
        pages == old(pages) + [reply.page]
      ensures (&& reply.Added? && old(Valid()) && reply.page.pageNumber == request.pageNumber
               && forall i :: 0 <= i < |old(pages)| ==> old(pages)[i].pageId != reply.page.pageId)
        ==> currentPageIndex == |pages| - 1
      ensures old(Valid()) ==> Valid()
    {
      var maxPageNumber := MaxFrom(0, pages);
      request := NewPageRequest(NewPageContent, maxPageNumber + 1);
      match reply {
        case AddFailed(message) =>
          error := Some("Failed to add new page: " + message);
        case AddedWithoutPage =>
        case Added(page) =>
          var updatedPages := Sort(ByNumber, pages + [page]);
          AddedPageLands(pages, page);
          pages := updatedPages;
          currentPageIndex := FindIndex(updatedPages, page.pageId);
      }
    }

    /** `handleContentChange`: clears whatever save is scheduled, for any
        page, and schedules this one. Nothing is sent and nothing else
        changes. */
    method ContentChange(pageId: string, content: string)
      modifies this
      ensures pending == Some(Edit(pageId, content))
      ensures Next(old(pending), Change(Edit(pageId, content))) == Step(pending, None)
      ensures pages == old(pages) && currentPageIndex == old(currentPageIndex)
      ensures book == old(book) && loading == old(loading) && error == old(error)
    {
      pending := Some(Edit(pageId, content));
    }

    /** The timer of the scheduled save expires: that one update is sent.
        Only when it succeeds is its content patched into every page with
        its id; on failure the pages stay as they were and the error is
        recorded. */
    method TimerFires(reply: SaveReply) returns (sent: Option<Edit>)
      modifies this
      ensures sent == old(pending) && pending == None
      ensures Next(old(pending), Fire) == Step(pending, sent)
      ensures sent.None? ==> pages == old(pages) && error == old(error)
      ensures sent.Some? && reply.Saved? ==>
        pages == SetContent(old(pages), sent.value.pageId, sent.value.content) && error == old(error)
      ensures sent.Some? && reply.SaveFailed? ==>
        pages == old(pages) && error == Some("Failed to save page content: " + reply.message)
      ensures currentPageIndex == old(currentPageIndex) && book == old(book) && loading == old(loading)
      ensures old(Valid()) ==> Valid()
    {
      sent := pending;
      pending := None;
      if sent.Some? {
        match reply {
          case Saved =>
            if Valid() {
              SetContentKeepsOrder(ByNumber, pages, sent.value.pageId, sent.value.content);
            }
            pages := SetContent(pages, sent.value.pageId, sent.value.content);
          case SaveFailed(message) =>
            error := Some("Failed to save page content: " + message);
        }
      }
    }
  }
}
