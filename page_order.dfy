/** The page collection as the book view holds it, and the pure pieces of its
    controller: the two comparators handed to `Array.prototype.sort`, the
    stable sort itself, the next page number, `findIndex`, and the content
    patch applied after a save. */
module PageOrder {

  /** A page as the client receives it. */
  datatype Page = Page(pageId: string, content: string, pageNumber: int)

  /** Three-way comparison of strings by character code, standing in for
      `localeCompare`. */
  function CompareStrings(a: string, b: string): (r: int)
    ensures -1 <= r <= 1
    ensures r == 0 <==> a == b
  {
    if a == [] && b == [] then 0
    else if a == [] then -1
    else if b == [] then 1
    else if a[0] < b[0] then -1
    else if a[0] > b[0] then 1
    else
      assert a == [a[0]] + a[1..] && b == [b[0]] + b[1..];
      CompareStrings(a[1..], b[1..])
  }

  lemma {:induction false} CompareStringsFlip(a: string, b: string)
    ensures CompareStrings(a, b) == -CompareStrings(b, a)
  {
    if a != [] && b != [] && a[0] == b[0] {
      CompareStringsFlip(a[1..], b[1..]);
    }
  }

  lemma {:induction false} CompareStringsTransitive(a: string, b: string, c: string)
    requires CompareStrings(a, b) <= 0 && CompareStrings(b, c) <= 0
    ensures CompareStrings(a, c) <= 0
  {
    if a != [] && b != [] && c != [] && a[0] == b[0] == c[0] {
      CompareStringsTransitive(a[1..], b[1..], c[1..]);
    }
  }

  /** Which comparator a sort uses: the load-time one (page_number, then
      page_id) or the add-time one (page_number only). */
  datatype Order = ByNumberThenId | ByNumber

  /** The comparator's answer: negative when `a` goes first. */
  function Compare(o: Order, a: Page, b: Page): (r: int)
    ensures a.pageNumber < b.pageNumber ==> r < 0
    ensures a.pageNumber > b.pageNumber ==> r > 0
    ensures r == 0 <==> a.pageNumber == b.pageNumber && (o.ByNumberThenId? ==> a.pageId == b.pageId)
  {
    match o
    case ByNumber => a.pageNumber - b.pageNumber
    case ByNumberThenId =>
      if a.pageNumber != b.pageNumber then a.pageNumber - b.pageNumber
      else CompareStrings(a.pageId, b.pageId)
  }

  predicate Le(o: Order, a: Page, b: Page)
  {
    Compare(o, a, b) <= 0
  }

  /** Both comparators are consistent: total and transitive. */
  lemma LeTotal(o: Order, a: Page, b: Page)
    ensures Le(o, a, b) || Le(o, b, a)
  {
    CompareStringsFlip(a.pageId, b.pageId);
  }

  lemma LeTransitive(o: Order, a: Page, b: Page, c: Page)
    requires Le(o, a, b) && Le(o, b, c)
    ensures Le(o, a, c)
  {
    if o.ByNumberThenId? && a.pageNumber == b.pageNumber == c.pageNumber {
      CompareStringsTransitive(a.pageId, b.pageId, c.pageId);
    }
  }

  /** The load-time comparator ties only pages with the same number and the
      same id: for distinct ids the order is total. */
  lemma KeyAntisymmetric(a: Page, b: Page)
    requires Le(ByNumberThenId, a, b) && Le(ByNumberThenId, b, a)
    ensures a.pageNumber == b.pageNumber && a.pageId == b.pageId
  {
    CompareStringsFlip(a.pageId, b.pageId);
  }

  ghost predicate Sorted(o: Order, s: seq<Page>)
  {
    forall i, j :: 0 <= i < j < |s| ==> Le(o, s[i], s[j])
  }

  /** No two pages share an id; the counterpart of `Store.DistinctIds` for
      the client's decoded pages (the two page types are kept apart). */
  predicate DistinctIds(s: seq<Page>)
  {
    forall i, j :: 0 <= i < j < |s| ==> s[i].pageId != s[j].pageId
  }

  /** Sorting by the load-time key also sorts by page number. */
  lemma KeySortedIsNumberSorted(s: seq<Page>)
    requires Sorted(ByNumberThenId, s)
    ensures Sorted(ByNumber, s)
  {
  }

  /** Inserts `x` before the first element it does not follow, so `x` stays
      ahead of the elements that compare equal to it. */
  function Insert(o: Order, x: Page, s: seq<Page>): (r: seq<Page>)
    ensures |r| == |s| + 1
  {
    if s == [] then [x]
    else if Le(o, x, s[0]) then [x] + s
    else [s[0]] + Insert(o, x, s[1..])
  }

  /** Insertion adds exactly `x`: the result is a permutation of `s` and `x`. */
  lemma {:induction false} InsertPermutes(o: Order, x: Page, s: seq<Page>)
    ensures multiset(Insert(o, x, s)) == multiset(s) + multiset{x}
  {
    if s != [] && !Le(o, x, s[0]) {
      InsertPermutes(o, x, s[1..]);
      assert s == [s[0]] + s[1..];
    }
  }

  /** The stable sort `Array.prototype.sort` performs with a consistent
      comparator, written as an insertion sort: the first element is inserted
      into the sorted rest. */
  function Sort(o: Order, s: seq<Page>): (r: seq<Page>)
    ensures |r| == |s|
    ensures multiset(r) == multiset(s)
  {
    if s == [] then []
    else
      assert s == [s[0]] + s[1..];
      InsertPermutes(o, s[0], Sort(o, s[1..]));
      Insert(o, s[0], Sort(o, s[1..]))
  }

  lemma SortedTail(o: Order, s: seq<Page>)
    requires Sorted(o, s) && s != []
    ensures Sorted(o, s[1..])
  {
    var tail := s[1..];
    forall i, j | 0 <= i < j < |tail| ensures Le(o, tail[i], tail[j]) {
      assert tail[i] == s[i + 1] && tail[j] == s[j + 1];
    }
  }

  lemma SortedCons(o: Order, a: Page, t: seq<Page>)
    requires Sorted(o, t)
    requires forall k :: 0 <= k < |t| ==> Le(o, a, t[k])
    ensures Sorted(o, [a] + t)
  {
    var r := [a] + t;
    forall i, j | 0 <= i < j < |r| ensures Le(o, r[i], r[j]) {
      if i == 0 {
        assert r[j] == t[j - 1];
      } else {
        assert r[i] == t[i - 1] && r[j] == t[j - 1];
      }
    }
  }

  /** A lower bound of `x` and of every element of `s` bounds `Insert(x, s)`. */
  lemma InsertLowerBound(o: Order, a: Page, x: Page, s: seq<Page>)
    requires Le(o, a, x)
    requires forall k :: 0 <= k < |s| ==> Le(o, a, s[k])
    ensures forall k :: 0 <= k < |Insert(o, x, s)| ==> Le(o, a, Insert(o, x, s)[k])
  {
    var t := Insert(o, x, s);
    InsertPermutes(o, x, s);
    forall k | 0 <= k < |t| ensures Le(o, a, t[k]) {
      assert t[k] in multiset(t);
      if t[k] != x {
        assert t[k] in multiset(s);
        var m :| 0 <= m < |s| && s[m] == t[k];
      }
    }
  }

  lemma {:induction false} InsertSorted(o: Order, x: Page, s: seq<Page>)
    requires Sorted(o, s)
    ensures Sorted(o, Insert(o, x, s))
  {
    if s == [] {
    } else if Le(o, x, s[0]) {
      forall k | 0 <= k < |s| ensures Le(o, x, s[k]) {
        if k > 0 {
          LeTransitive(o, x, s[0], s[k]);
        }
      }
      SortedCons(o, x, s);
    } else {
      LeTotal(o, x, s[0]);
      SortedTail(o, s);
      InsertSorted(o, x, s[1..]);
      assert forall k :: 0 <= k < |s[1..]| ==> Le(o, s[0], s[1..][k]) by {
        forall k | 0 <= k < |s[1..]| ensures Le(o, s[0], s[1..][k]) {
          assert s[1..][k] == s[k + 1];
        }
      }
      InsertLowerBound(o, s[0], x, s[1..]);
      SortedCons(o, s[0], Insert(o, x, s[1..]));
    }
  }

  /** The result of the sort is ordered by its comparator. */
  lemma {:induction false} SortSorted(o: Order, s: seq<Page>)
    ensures Sorted(o, Sort(o, s))
  {
    if s != [] {
      SortSorted(o, s[1..]);
      InsertSorted(o, s[0], Sort(o, s[1..]));
    }
  }

  /** Sorting what is already in order changes nothing. */
  lemma {:induction false} SortOfSorted(o: Order, s: seq<Page>)
    requires Sorted(o, s)
    ensures Sort(o, s) == s
  {
    if s != [] {
      var tail := s[1..];
      SortedTail(o, s);
      SortOfSorted(o, tail);
      if |s| > 1 {
        assert Le(o, s[0], tail[0]);
      }
      assert s == [s[0]] + tail;
    }
  }

  /** One step of `Insert` on a non-empty sequence. */
  lemma InsertStep(o: Order, y: Page, s: seq<Page>)
    requires s != []
    ensures Le(o, y, s[0]) ==> Insert(o, y, s) == [y] + s
    ensures !Le(o, y, s[0]) ==> Insert(o, y, s) == [s[0]] + Insert(o, y, s[1..])
  {
  }

  lemma {:induction false} InsertBeforeLast(o: Order, y: Page, t: seq<Page>, x: Page)
    requires Le(o, y, x)
    ensures Insert(o, y, t + [x]) == Insert(o, y, t) + [x]
  {
    var u := t + [x];
    InsertStep(o, y, u);
    if t == [] {
      assert u == [x];
    } else {
      InsertStep(o, y, t);
      assert u[0] == t[0];
      if Le(o, y, t[0]) {
        assert [y] + u == ([y] + t) + [x];
      } else {
        assert u[1..] == t[1..] + [x];
        InsertBeforeLast(o, y, t[1..], x);
        assert [t[0]] + (Insert(o, y, t[1..]) + [x]) == ([t[0]] + Insert(o, y, t[1..])) + [x];
      }
    }
  }

  /** A page that no page follows under the comparator ends up last, and
      the others keep the order the sort gives them alone. */
  lemma {:induction false} SortAppendGreatest(o: Order, s: seq<Page>, x: Page)
    requires forall i :: 0 <= i < |s| ==> Le(o, s[i], x)
    ensures Sort(o, s + [x]) == Sort(o, s) + [x]
  {
    if s == [] {
      assert s + [x] == [x];
    } else {
      assert (s + [x])[0] == s[0];
      assert (s + [x])[1..] == s[1..] + [x];
      SortAppendGreatest(o, s[1..], x);
      InsertBeforeLast(o, s[0], Sort(o, s[1..]), x);
    }
  }

  lemma {:induction false} InsertDistinct(o: Order, x: Page, t: seq<Page>)
    requires DistinctIds(t)
    requires forall i :: 0 <= i < |t| ==> t[i].pageId != x.pageId
    ensures DistinctIds(Insert(o, x, t))
  {
    if t == [] || Le(o, x, t[0]) {
      DistinctCons(x, t);
    } else {
      var tail := t[1..];
      DistinctTail(t);
      InsertDistinct(o, x, tail);
      var u := Insert(o, x, tail);
      InsertPermutes(o, x, tail);
      forall k | 0 <= k < |u| ensures u[k].pageId != t[0].pageId {
        assert u[k] in multiset(u);
        if u[k] != x {
          assert u[k] in multiset(tail);
          TailMemberId(t, u[k]);
        }
      }
      DistinctCons(t[0], u);
    }
  }

  lemma {:induction false} SortDistinct(o: Order, s: seq<Page>)
    requires DistinctIds(s)
    ensures DistinctIds(Sort(o, s))
  {
    if s != [] {
      var tail := s[1..];
      DistinctTail(s);
      SortDistinct(o, tail);
      var sorted := Sort(o, tail);
      forall i | 0 <= i < |sorted| ensures sorted[i].pageId != s[0].pageId {
        assert sorted[i] in multiset(sorted);
        assert sorted[i] in multiset(tail);
        TailMemberId(s, sorted[i]);
      }
      InsertDistinct(o, s[0], sorted);
      assert s == [s[0]] + tail;
    }
  }

  lemma DistinctTail(s: seq<Page>)
    requires DistinctIds(s) && s != []
    ensures DistinctIds(s[1..])
  {
    var tail := s[1..];
    forall p, q | 0 <= p < q < |tail| ensures tail[p].pageId != tail[q].pageId {
      assert tail[p] == s[p + 1] && tail[q] == s[q + 1];
    }
  }

  /** A page whose id no page of `t` has, put in front of `t`, keeps the
      ids distinct. */
  lemma DistinctCons(a: Page, t: seq<Page>)
    requires DistinctIds(t)
    requires forall k :: 0 <= k < |t| ==> t[k].pageId != a.pageId
    ensures DistinctIds([a] + t)
  {
    var r := [a] + t;
    forall i, j | 0 <= i < j < |r| ensures r[i].pageId != r[j].pageId {
      assert r[j] == t[j - 1];
      if i > 0 {
        assert r[i] == t[i - 1];
      }
    }
  }

  /** With distinct ids, no later page shares the first page's id. */
  lemma TailMemberId(s: seq<Page>, p: Page)
    requires DistinctIds(s) && s != [] && p in s[1..]
    ensures p.pageId != s[0].pageId
  {
    var m :| 0 <= m < |s[1..]| && s[1..][m] == p;
    assert s[m + 1] == p;
  }

  /** Removing the same first element from two arrangements of the same
      multiset leaves arrangements of the same multiset. */
  lemma TailMultiset(s1: seq<Page>, s2: seq<Page>)
    requires s1 != [] && s2 != [] && s1[0] == s2[0]
    requires multiset(s1) == multiset(s2)
    ensures multiset(s1[1..]) == multiset(s2[1..])
  {
    var h, t1, t2 := s1[0], s1[1..], s2[1..];
    assert s1 == [h] + t1 && s2 == [h] + t2;
    assert multiset(s1) == multiset{h} + multiset(t1);
    assert multiset(s2) == multiset{h} + multiset(t2);
    assert multiset(t1) == multiset(s1) - multiset{h};
    assert multiset(t2) == multiset(s2) - multiset{h};
  }

  /** In a sequence sorted by `o`, the first element is below every element. */
  lemma SortedHeadBelow(o: Order, s: seq<Page>, x: Page)
    requires Sorted(o, s) && x in s
    ensures Le(o, s[0], x)
  {
    var j :| 0 <= j < |s| && s[j] == x;
    if j == 0 {
      assert Compare(o, x, x) == 0;
    }
  }

  /** Two load-time-sorted arrangements of the same pages with distinct ids
      start with the same page. */
  lemma KeySortedSameHead(s1: seq<Page>, s2: seq<Page>)
    requires Sorted(ByNumberThenId, s1) && Sorted(ByNumberThenId, s2)
    requires multiset(s1) == multiset(s2)
    requires DistinctIds(s1)
    requires s1 != [] && s2 != []
    ensures s1[0] == s2[0]
  {
    var a, b := s1[0], s2[0];
    assert a in multiset(s2);
    SortedHeadBelow(ByNumberThenId, s2, a);
    assert b in multiset(s1);
    SortedHeadBelow(ByNumberThenId, s1, b);
    KeyAntisymmetric(a, b);
    var i :| 0 <= i < |s1| && s1[i] == b;
    if i != 0 {
      assert s1[0].pageId != s1[i].pageId;
    }
  }

  /** Two arrangements of the same pages with distinct ids that are both in
      load-time order are the same sequence: the order is total. */
  lemma {:induction false} KeySortedUnique(s1: seq<Page>, s2: seq<Page>)
    requires Sorted(ByNumberThenId, s1) && Sorted(ByNumberThenId, s2)
    requires multiset(s1) == multiset(s2)
    requires DistinctIds(s1)
    ensures s1 == s2
  {
    assert |s2| == |multiset(s2)| == |s1|;
    if s1 != [] {
      KeySortedSameHead(s1, s2);
      TailMultiset(s1, s2);
      SortedTail(ByNumberThenId, s1);
      SortedTail(ByNumberThenId, s2);
      DistinctTail(s1);
      KeySortedUnique(s1[1..], s2[1..]);
      assert s1 == [s1[0]] + s1[1..] && s2 == [s2[0]] + s2[1..];
    }
  }

  /** The load-time sort does not depend on the order in which the server
      lists the pages, as long as their ids are distinct. */
  lemma LoadOrderDeterministic(a: seq<Page>, b: seq<Page>)
    requires multiset(a) == multiset(b)
    requires DistinctIds(a)
    ensures Sort(ByNumberThenId, a) == Sort(ByNumberThenId, b)
  {
    SortSorted(ByNumberThenId, a);
    SortSorted(ByNumberThenId, b);
    SortDistinct(ByNumberThenId, a);
    KeySortedUnique(Sort(ByNumberThenId, a), Sort(ByNumberThenId, b));
  }

  function Max(a: int, b: int): int
  {
    if a < b then b else a
  }

  /** The fold `reduce((max, p) => Math.max(max, p.page_number), acc)`. */
  function MaxFrom(acc: int, ps: seq<Page>): (m: int)
    decreases |ps|
    ensures m >= acc
    ensures forall i :: 0 <= i < |ps| ==> ps[i].pageNumber <= m
    ensures m == acc || exists i :: 0 <= i < |ps| && ps[i].pageNumber == m
  {
    if ps == [] then acc
    else
      var m := MaxFrom(Max(acc, ps[0].pageNumber), ps[1..]);
      assert forall i :: 1 <= i < |ps| ==> ps[i] == ps[1..][i - 1];
      m
  }

  /** The page number an added page asks for: one more than the largest
      number, where the fold starts at 0, so 1 for a book without pages. */
  function NextPageNumber(pages: seq<Page>): (n: int)
    ensures n >= 1
    ensures forall i :: 0 <= i < |pages| ==> pages[i].pageNumber < n
    ensures n == 1 || exists i :: 0 <= i < |pages| && pages[i].pageNumber == n - 1
  {
    MaxFrom(0, pages) + 1
  }

  /** A page numbered one past the largest, appended to pages already in
      page-number order, is left last by the add-time sort and the others
      keep their places. */
  lemma NewestPageLast(pages: seq<Page>, p: Page)
    requires Sorted(ByNumber, pages) && p.pageNumber == NextPageNumber(pages)
    ensures Sort(ByNumber, pages + [p]) == pages + [p]
  {
    forall i | 0 <= i < |pages| ensures Le(ByNumber, pages[i], p) {
    }
    SortAppendGreatest(ByNumber, pages, p);
    SortOfSorted(ByNumber, pages);
  }

  /** `findIndex(p => p.page_id === id)`: the first position with that id,
      or -1. */
  function FindIndex(s: seq<Page>, id: string): (r: int)
    ensures -1 <= r < |s|
    ensures r == -1 <==> forall i :: 0 <= i < |s| ==> s[i].pageId != id
    ensures r >= 0 ==> s[r].pageId == id && forall i :: 0 <= i < r ==> s[i].pageId != id
  {
    if s == [] then -1
    else if s[0].pageId == id then 0
    else
      var k := FindIndex(s[1..], id);
      assert forall i :: 1 <= i < |s| ==> s[i] == s[1..][i - 1];
      if k < 0 then -1 else k + 1
  }

  /** `pages.map(p => p.page_id === id ? { ...p, content } : p)`. */
  function SetContent(pages: seq<Page>, id: string, content: string): (r: seq<Page>)
    ensures |r| == |pages|
    ensures forall i :: 0 <= i < |pages| && pages[i].pageId == id ==> r[i] == pages[i].(content := content)
    ensures forall i :: 0 <= i < |pages| && pages[i].pageId != id ==> r[i] == pages[i]
  {
    seq(|pages|, i requires 0 <= i < |pages| =>
      if pages[i].pageId == id then pages[i].(content := content) else pages[i])
  }

  /** A content patch keeps every id and number, so it keeps the order. */
  lemma SetContentKeepsOrder(o: Order, pages: seq<Page>, id: string, content: string)
    requires Sorted(o, pages)
    ensures Sorted(o, SetContent(pages, id, content))
    ensures forall i :: 0 <= i < |pages| ==>
      SetContent(pages, id, content)[i].pageId == pages[i].pageId
      && SetContent(pages, id, content)[i].pageNumber == pages[i].pageNumber
  {
  }

  /** A page that is in the sequence is found by its id. */
  lemma FindIndexOfMember(s: seq<Page>, p: Page)
    requires p in s
    ensures 0 <= FindIndex(s, p.pageId) < |s|
  {
    var k :| 0 <= k < |s| && s[k] == p;
    assert s[k].pageId == p.pageId;
  }

  /** A page with an id no earlier page has is found at its own position. */
  lemma FindIndexOfNewest(pages: seq<Page>, p: Page)
    requires forall i :: 0 <= i < |pages| ==> pages[i].pageId != p.pageId
    ensures FindIndex(pages + [p], p.pageId) == |pages|
  {
    var s := pages + [p];
    assert s[|pages|].pageId == p.pageId;
    assert forall i :: 0 <= i < |pages| ==> s[i] == pages[i];
  }
}
