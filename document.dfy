/** The page list of the word editor: pages with their ids, the lookup of a
    page's element by id, and the pure operations that build a new page list
    from the old one (add, delete, and the content mapping done on save). */
module Document {

  datatype Option<T> = None | Some(value: T)

  /** One page record `{ id, content }`; `content` is the page's rendered markup. */
  datatype Page = Page(id: int, content: string)

  /** The page list the editor starts from, and the one `clearContent` restores. */
  const InitialPages: seq<Page> := [Page(1, "")]

  /** `addPage`: one empty page whose id is the old page count plus one. */
  function WithPageAdded(pages: seq<Page>): (r: seq<Page>)
    ensures |r| == |pages| + 1
    ensures r[..|pages|] == pages
    ensures r[|pages|] == Page(|pages| + 1, "")
  {
    pages + [Page(|pages| + 1, "")]
  }

  /** `deletePage(id)`: the pages whose id differs from `id`, in their order. */
  function WithoutPage(pages: seq<Page>, id: int): (r: seq<Page>)
    ensures |r| <= |pages|
    ensures forall p :: p in r <==> p in pages && p.id != id
  {
    if pages == [] then []
    else (if pages[0].id == id then [] else [pages[0]]) + WithoutPage(pages[1..], id)
  }

  /** `document.getElementById("page-" + id)`: the index of the first page, in
      display order, that carries `id`, or `|pages|` when none does. */
  function ElementIndex(pages: seq<Page>, id: int): (i: nat)
    ensures i <= |pages|
    ensures i < |pages| ==> pages[i].id == id
    ensures forall j :: 0 <= j < i ==> pages[j].id != id
  {
    if pages == [] then 0
    else if pages[0].id == id then 0
    else 1 + ElementIndex(pages[1..], id)
  }

  /** No element is found under an id no page carries. */
  lemma {:induction false} ElementIndexOfAbsentId(pages: seq<Page>, id: int)
    requires forall p :: p in pages ==> p.id != id
    ensures ElementIndex(pages, id) == |pages|
  {
    if pages != [] {
      assert pages[0] in pages;
      assert forall p :: p in pages[1..] ==> p in pages;
      ElementIndexOfAbsentId(pages[1..], id);
    }
  }

  /** The content mapping of `saveContent`: every page keeps its id and takes
      the rendered content of the element found under that id. */
  function Saved(pages: seq<Page>): (r: seq<Page>)
    ensures |r| == |pages|
    ensures forall i :: 0 <= i < |pages| ==> r[i].id == pages[i].id
    ensures forall i :: 0 <= i < |pages| ==>
      r[i].content == pages[ElementIndex(pages, pages[i].id)].content
    ensures forall i, j :: 0 <= i < |pages| && 0 <= j < |pages| && pages[i].id == pages[j].id ==>
      r[i].content == r[j].content
  {
    seq(|pages|, i requires 0 <= i < |pages| =>
      Page(pages[i].id, pages[ElementIndex(pages, pages[i].id)].content))
  }

  /** Ids 1, 2, ..., n in display order: what adding pages to the initial list yields. */
  ghost predicate SerialIds(pages: seq<Page>)
  {
    forall i :: 0 <= i < |pages| ==> pages[i].id == i + 1
  }

  /** Deleting an id that no page carries changes nothing. */
  lemma {:induction false} WithoutAbsentId(pages: seq<Page>, id: int)
    requires forall p :: p in pages ==> p.id != id
    ensures WithoutPage(pages, id) == pages
  {
    if pages != [] {
      assert pages[0] in pages;
      assert forall p :: p in pages[1..] ==> p in pages;
      WithoutAbsentId(pages[1..], id);
      assert pages == [pages[0]] + pages[1..];
    }
  }

  /** Deleting the same id twice is deleting it once. */
  lemma WithoutPageIdempotent(pages: seq<Page>, id: int)
    ensures WithoutPage(WithoutPage(pages, id), id) == WithoutPage(pages, id)
  {
    WithoutAbsentId(WithoutPage(pages, id), id);
  }

  /** Deletion works piecewise, so the kept pages stay in their original order. */
  lemma {:induction false} WithoutPageSplits(a: seq<Page>, b: seq<Page>, id: int)
    ensures WithoutPage(a + b, id) == WithoutPage(a, id) + WithoutPage(b, id)
  {
    if a == [] {
      assert a + b == b;
    } else {
      assert (a + b)[1..] == a[1..] + b;
      WithoutPageSplits(a[1..], b, id);
    }
  }

  /** Deleting an id that some page carries removes at least one page. */
  lemma {:induction false} WithoutPresentIdShrinks(pages: seq<Page>, id: int)
    requires exists p :: p in pages && p.id == id
    ensures |WithoutPage(pages, id)| < |pages|
  {
    if pages[0].id != id {
      var p :| p in pages && p.id == id;
      assert p in pages[1..] by {
        assert pages == [pages[0]] + pages[1..];
      }
      WithoutPresentIdShrinks(pages[1..], id);
    }
  }

  /** Nothing guards the last page: deleting it leaves no page at all. */
  lemma DeleteCanLeaveNoPage()
    ensures WithoutPage(InitialPages, 1) == []
  {
  }

  /** Adding a page and deleting its id restores the list, provided no older
      page already carried the new id. */
  lemma AddThenDeleteRestores(pages: seq<Page>)
    requires forall p :: p in pages ==> p.id != |pages| + 1
    ensures WithoutPage(WithPageAdded(pages), |pages| + 1) == pages
  {
    WithoutPageSplits(pages, [Page(|pages| + 1, "")], |pages| + 1);
    WithoutAbsentId(pages, |pages| + 1);
  }

  /** While only pages were added, ids stay serial and the id `addPage` hands
      out is fresh. */
  lemma AddKeepsSerialIds(pages: seq<Page>)
    requires SerialIds(pages)
    ensures SerialIds(WithPageAdded(pages))
    ensures forall p :: p in pages ==> p.id != |pages| + 1
  {
    forall p | p in pages
      ensures p.id != |pages| + 1
    {
      var i :| 0 <= i < |pages| && pages[i] == p;
    }
  }

  /** Add twice to the initial list, delete the middle page, add again: the
      new page repeats id 3, and deleting id 3 then takes both pages. */
  lemma AddAfterDeleteRepeatsId()
    ensures WithPageAdded(WithPageAdded(InitialPages)) == [Page(1, ""), Page(2, ""), Page(3, "")]
    ensures WithoutPage([Page(1, ""), Page(2, ""), Page(3, "")], 2) == [Page(1, ""), Page(3, "")]
    ensures WithPageAdded([Page(1, ""), Page(3, "")]) == [Page(1, ""), Page(3, ""), Page(3, "")]
    ensures WithoutPage([Page(1, ""), Page(3, ""), Page(3, "")], 3) == [Page(1, "")]
  {
    var three := [Page(1, ""), Page(2, ""), Page(3, "")];
    assert three[1..] == [Page(2, ""), Page(3, "")];
    assert three[1..][1..] == [Page(3, "")];
    assert three[1..][1..][1..] == [];
    var twice := [Page(1, ""), Page(3, ""), Page(3, "")];
    assert twice[1..] == [Page(3, ""), Page(3, "")];
    assert twice[1..][1..] == [Page(3, "")];
    assert twice[1..][1..][1..] == [];
  }

  /** The first index carrying an id depends only on the ids, not on contents. */
  lemma {:induction false} ElementIndexByIds(a: seq<Page>, b: seq<Page>, id: int)
    requires |a| == |b|
    requires forall i :: 0 <= i < |a| ==> a[i].id == b[i].id
    ensures ElementIndex(a, id) == ElementIndex(b, id)
  {
    if a != [] && a[0].id != id {
      ElementIndexByIds(a[1..], b[1..], id);
    }
  }

  /** With distinct ids, saving keeps every page as it is. */
  lemma SavedDistinctIds(pages: seq<Page>)
    requires forall i, j :: 0 <= i < j < |pages| ==> pages[i].id != pages[j].id
    ensures Saved(pages) == pages
  {
    forall i | 0 <= i < |pages|
      ensures Saved(pages)[i] == pages[i]
    {
      var e := ElementIndex(pages, pages[i].id);
      assert e == i;
    }
  }

  /** Saving twice is saving once. */
  lemma SavedIdempotent(pages: seq<Page>)
    ensures Saved(Saved(pages)) == Saved(pages)
  {
    var s := Saved(pages);
    forall i | 0 <= i < |pages|
      ensures Saved(s)[i] == s[i]
    {
      var e := ElementIndex(pages, pages[i].id);
      ElementIndexByIds(s, pages, pages[i].id);
      assert pages[e].id == pages[i].id;
    }
  }

  /** With a repeated id, saving gives the later page the first one's content. */
  lemma SavedCopiesFirstDuplicate()
    ensures Saved([Page(3, "a"), Page(3, "b")]) == [Page(3, "a"), Page(3, "a")]
  {
    var pages := [Page(3, "a"), Page(3, "b")];
    assert ElementIndex(pages, 3) == 0;
  }
}
