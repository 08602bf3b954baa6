/** The `books` collection of the backend's database, as the two routers see
    it: a map from ObjectId to book document. A book document carries its
    pages in an embedded array `pages`; the three array operators the routers
    use (`$push`, positional `$set`, `$pull`) are modelled by their effect on
    that sequence. */
module Store {
  import opened Optional
  import opened Json
  import ObjectIds

  /** An element of a book's `pages` array. `content` and `page_number` hold
      whatever JSON the client sent. */
  datatype StoredPage = StoredPage(pageId: string, content: Value, pageNumber: Value)

  /** A book document. `pages` is None when the field is absent. */
  datatype Book = Book(title: Value, thumbnail: Value, pages: Option<seq<StoredPage>>)

  /** A book as the handlers return it: the document with `_id` as a string. */
  datatype BookDoc = BookDoc(id: string, title: Value, thumbnail: Value, pages: Option<seq<StoredPage>>)

  /** What a handler answers: a status and a body, or an `HTTPException`. */
  datatype Response<T> = Ok(status: int, body: T) | Fail(status: int, detail: string)

  const InvalidBookId := "Invalid book ID format."
  const BookNotFound := "Book not found."

  function DocOf(id: string, b: Book): BookDoc
  {
    BookDoc(id, b.title, b.thumbnail, b.pages)
  }

  /** `book.get("pages", [])`. */
  function PagesOf(b: Book): seq<StoredPage>
  {
    if b.pages.Some? then b.pages.value else []
  }

  predicate HasPage(ps: seq<StoredPage>, id: string)
  {
    exists i :: 0 <= i < |ps| && ps[i].pageId == id
  }

  /** No two pages share an id. The frontend's `PageOrder` states the same
      property of its own `Page` type: the stored page holds raw JSON values
      and the client's page holds decoded ones, so the two stay apart. */
  predicate DistinctIds(ps: seq<StoredPage>)
  {
    forall i, j :: 0 <= i < j < |ps| ==> ps[i].pageId != ps[j].pageId
  }

  /** `{"$push": {"pages": p}}`: appends, creating the array when absent. */
  function Push(pages: Option<seq<StoredPage>>, p: StoredPage): (r: seq<StoredPage>)
    ensures |r| == |if pages.Some? then pages.value else []| + 1
    ensures r[..|r| - 1] == (if pages.Some? then pages.value else [])
    ensures r[|r| - 1] == p
  {
    (if pages.Some? then pages.value else []) + [p]
  }

  /** Index of the element the positional operator `pages.$` selects: the
      first page with the queried id. */
  function FirstIndex(ps: seq<StoredPage>, id: string): (i: nat)
    requires HasPage(ps, id)
    ensures i < |ps| && ps[i].pageId == id
    ensures forall k :: 0 <= k < i ==> ps[k].pageId != id
  {
    if ps[0].pageId == id then 0 else
      assert ps[1..][..] == ps[1..];
      assert exists j :: 0 <= j < |ps[1..]| && ps[1..][j].pageId == id by {
        var j :| 0 <= j < |ps| && ps[j].pageId == id;
        assert j > 0 && ps[1..][j - 1] == ps[j];
      }
      FirstIndex(ps[1..], id) + 1
  }

  /** The fields a page update `$set`s: each is present or not. */
  datatype PagePatch = PagePatch(content: Option<Value>, pageNumber: Option<Value>)

  function Patched(p: StoredPage, patch: PagePatch): (r: StoredPage)
    ensures r.pageId == p.pageId
    ensures r.content == (if patch.content.Some? then patch.content.value else p.content)
    ensures r.pageNumber == (if patch.pageNumber.Some? then patch.pageNumber.value else p.pageNumber)
  {
    var withContent := if patch.content.Some? then p.(content := patch.content.value) else p;
    if patch.pageNumber.Some? then withContent.(pageNumber := patch.pageNumber.value) else withContent
  }

  /** `{"$set": {"pages.$.content": ..., "pages.$.page_number": ...}}` with
      the filter `"pages.page_id": id`: only the first matching page changes. */
  function SetFirst(ps: seq<StoredPage>, id: string, patch: PagePatch): (r: seq<StoredPage>)
    requires HasPage(ps, id)
    ensures |r| == |ps|
    ensures forall k :: 0 <= k < |ps| && k != FirstIndex(ps, id) ==> r[k] == ps[k]
    ensures r[FirstIndex(ps, id)] == Patched(ps[FirstIndex(ps, id)], patch)
    ensures forall k :: 0 <= k < |ps| ==> r[k].pageId == ps[k].pageId
  {
    ps[FirstIndex(ps, id) := Patched(ps[FirstIndex(ps, id)], patch)]
  }

  /** `{"$pull": {"pages": {"page_id": id}}}`: removes every page with the id. */
  function Pull(ps: seq<StoredPage>, id: string): (r: seq<StoredPage>)
    ensures |r| <= |ps|
    ensures forall p :: p in r <==> p in ps && p.pageId != id
  {
    if ps == [] then []
    else if ps[0].pageId == id then Pull(ps[1..], id)
    else [ps[0]] + Pull(ps[1..], id)
  }

  /** `$pull` keeps the survivors in their order: it distributes over
      concatenation. */
  lemma {:induction false} PullConcat(a: seq<StoredPage>, b: seq<StoredPage>, id: string)
    ensures Pull(a + b, id) == Pull(a, id) + Pull(b, id)
  {
    if a == [] {
      assert a + b == b;
    } else {
      assert (a + b)[0] == a[0];
      assert (a + b)[1..] == a[1..] + b;
      PullConcat(a[1..], b, id);
    }
  }

  /** A page with the id is the first page or a page of the rest. */
  lemma HasPageCons(ps: seq<StoredPage>, id: string)
    requires ps != []
    ensures HasPage(ps, id) <==> ps[0].pageId == id || HasPage(ps[1..], id)
  {
    if HasPage(ps, id) {
      var j :| 0 <= j < |ps| && ps[j].pageId == id;
      assert j == 0 || ps[1..][j - 1] == ps[j];
    }
    if HasPage(ps[1..], id) {
      var j :| 0 <= j < |ps[1..]| && ps[1..][j].pageId == id;
      assert ps[j + 1] == ps[1..][j];
    }
  }

  /** The array is left as it was exactly when no page has the id: this is
      what `modified_count == 0` reports. */
  lemma {:induction false} PullUnchangedIff(ps: seq<StoredPage>, id: string)
    ensures Pull(ps, id) == ps <==> !HasPage(ps, id)
  {
    if ps != [] {
      PullUnchangedIff(ps[1..], id);
      HasPageCons(ps, id);
      if ps[0].pageId == id {
        assert |Pull(ps, id)| < |ps|;
      } else {
        assert Pull(ps, id) == [ps[0]] + Pull(ps[1..], id);
        assert ps == [ps[0]] + ps[1..];
      }
    }
  }

  /** With distinct ids, the rest of the array has distinct ids and none of
      them is the first page's. */
  lemma DistinctTail(ps: seq<StoredPage>)
    requires DistinctIds(ps) && ps != []
    ensures DistinctIds(ps[1..])
    ensures !HasPage(ps[1..], ps[0].pageId)
  {
    var tail := ps[1..];
    forall i, j | 0 <= i < j < |tail| ensures tail[i].pageId != tail[j].pageId {
      assert tail[i] == ps[i + 1] && tail[j] == ps[j + 1];
    }
    forall j | 0 <= j < |tail| ensures tail[j].pageId != ps[0].pageId {
      assert tail[j] == ps[j + 1];
    }
  }

  /** A page whose id the rest does not have, put in front, keeps the ids
      distinct. */
  lemma DistinctCons(a: StoredPage, t: seq<StoredPage>)
    requires DistinctIds(t) && !HasPage(t, a.pageId)
    ensures DistinctIds([a] + t)
  {
    var r := [a] + t;
    forall i, j | 0 <= i < j < |r| ensures r[i].pageId != r[j].pageId {
      assert r[j] == t[j - 1];
      if i > 0 {
        assert r[i] == t[i - 1];
      }
    }
  }

  /** With distinct ids, `$pull` of a present id removes exactly one page, and
      the survivors still have distinct ids. */
  lemma {:induction false} PullDistinct(ps: seq<StoredPage>, id: string)
    requires DistinctIds(ps)
    ensures DistinctIds(Pull(ps, id))
    ensures |Pull(ps, id)| == if HasPage(ps, id) then |ps| - 1 else |ps|
  {
    if ps != [] {
      var tail := ps[1..];
      DistinctTail(ps);
      PullDistinct(tail, id);
      HasPageCons(ps, id);
      if ps[0].pageId != id {
        var r := Pull(tail, id);
        assert !HasPage(r, ps[0].pageId) by {
          forall k | 0 <= k < |r| ensures r[k].pageId != ps[0].pageId {
            assert r[k] in r;
            var m :| 0 <= m < |tail| && tail[m] == r[k];
          }
        }
        DistinctCons(ps[0], r);
      }
    }
  }

  /** Appending a page whose id no page has keeps the ids distinct. */
  lemma PushFreshDistinct(pages: Option<seq<StoredPage>>, p: StoredPage)
    requires DistinctIds(if pages.Some? then pages.value else [])
    requires !HasPage(if pages.Some? then pages.value else [], p.pageId)
    ensures DistinctIds(Push(pages, p))
  {
    var old_ := if pages.Some? then pages.value else [];
    var r := Push(pages, p);
    forall i, j | 0 <= i < j < |r| ensures r[i].pageId != r[j].pageId {
      assert r[i] == old_[i];
      if j == |r| - 1 {
        assert old_[i].pageId != p.pageId;
      } else {
        assert r[j] == old_[j];
      }
    }
  }

  /** The books collection. */
  class BooksCollection {
    var books: map<string, Book>

    /** Every key is an ObjectId in canonical text, and within each book the
        page ids are distinct (each comes from a fresh `ObjectId()`). */
    ghost predicate Valid()
      reads this
    {
      ValidBooks(books)
    }

    constructor ()
      ensures books == map[] && Valid()
    {
      books := map[];
    }
  }

  ghost predicate ValidBooks(books: map<string, Book>)
  {
    forall k :: k in books ==> ObjectIds.IsCanonical(k) && DistinctIds(PagesOf(books[k]))
  }

  /** Replacing one stored book by a book whose page ids are distinct keeps
      the collection valid. */
  lemma ReplaceBookValid(books: map<string, Book>, key: string, b: Book)
    requires ValidBooks(books) && key in books && DistinctIds(PagesOf(b))
    ensures ValidBooks(books[key := b])
  {
  }

  /** No page of any stored book has the id: `str(ObjectId())` is fresh. */
  ghost predicate FreshPageId(books: map<string, Book>, id: string)
  {
    forall k :: k in books ==> !HasPage(PagesOf(books[k]), id)
  }
}
