/** The `WordEditor` component's state and handlers: the page list as shown on
    screen, and the slot of local storage that holds the saved page list. */
module Editor {
  import opened Document
  import opened Pagination

  class WordEditor {
    /** The pages in display order, each with its rendered content. */
    var pages: seq<Page>
    /** The `editorPages` entry of local storage: a saved page list, or none. */
    var stored: Option<seq<Page>>

    /** Mounting the component: one empty page; local storage is whatever a
        previous session left there. */
    constructor (storage: Option<seq<Page>>)
      ensures pages == InitialPages && stored == storage
    {
      pages := InitialPages;
      stored := storage;
    }

    /** The mount-time effect: a saved page list, when there is one, replaces
        the pages (an empty saved list too); otherwise the pages stay. */
    method LoadSaved()
      modifies this
      ensures stored == old(stored)
      ensures stored.Some? ==> pages == stored.value
      ensures stored.None? ==> pages == old(pages)
    {
      if stored.Some? {
        pages := stored.value;
      }
    }

    /** `saveContent`: every page takes its element's rendered content, and
        that page list becomes the stored one. */
    method SaveContent()
      modifies this
      ensures pages == Saved(old(pages))
      ensures stored == Some(pages)
    {
      var updatedPages := Saved(pages);
      pages := updatedPages;
      stored := Some(updatedPages);
    }

    /** `clearContent`: back to the initial page list, nothing stored. */
    method ClearContent()
      modifies this
      ensures pages == InitialPages
      ensures stored == None
    {
      pages := InitialPages;
      stored := None;
    }

    /** `addPage`. */
    method AddPage()
      modifies this
      ensures pages == WithPageAdded(old(pages))
      ensures stored == old(stored)
    {
      pages := WithPageAdded(pages);
    }

    /** `deletePage(id)`; it may leave no page at all. */
    method DeletePage(id: int)
      modifies this
      ensures pages == WithoutPage(old(pages), id)
      ensures stored == old(stored)
    {
      pages := WithoutPage(pages, id);
    }

    /** `handlePaste`: append the pasted text to the page found under the last
        page's id, then split while that page overflows. Each pass appends a
        page with the id computed from the page count at the start, and writes
        its content also into the rendered page already carrying that id, if
        any. With no page at all, looking up the last page fails before
        anything changes: `ok` is false. */
    method Paste(pasted: string, H: string -> int) returns (ok: bool)
      requires pages != [] ==> PasteEnds(pages, pasted, H)
      modifies this
      ensures ok <==> old(pages) != []
      ensures ok ==> pages == PasteResult(old(pages), pasted, H)
      ensures !ok ==> pages == old(pages)
      ensures stored == old(stored)
    {
      if pages == [] {
        return false;
      }
      ok := true;
      var pageCount := |pages|;
      var t := TargetIndex(pages);
      pages := pages[t := Page(pages[t].id, pages[t].content + pasted)];
      assert pages[..pageCount] == pages;
      ElementIndexByIds(pages, old(pages), pageCount + 1);
      while Overflows(H, pages[t].content)
        invariant t < pageCount <= |pages|
        invariant PassesEnd(H, pages[t].content, NewIdElement(pages, pageCount) == t)
        invariant AfterPasses(pages, pageCount, t, H) == PasteResult(old(pages), pasted, H)
        invariant stored == old(stored)
        decreases |pages[t].content|
      {
        PassProgress(pages, pageCount, t, H);
        pages := SplitPass(pages, pageCount, t, H);
      }
    }
  }

  /** Save, then reload the component: the reloaded editor shows exactly the
      saved page list. */
  method SaveThenReload(editor: WordEditor) returns (reloaded: WordEditor)
    modifies editor
    ensures fresh(reloaded)
    ensures reloaded.pages == Saved(old(editor.pages))
    ensures reloaded.stored == Some(reloaded.pages)
  {
    editor.SaveContent();
    reloaded := new WordEditor(editor.stored);
    reloaded.LoadSaved();
  }

  /** Clear, then reload the component: the reloaded editor shows the initial
      page list and nothing is stored. */
  method ClearThenReload(editor: WordEditor) returns (reloaded: WordEditor)
    modifies editor
    ensures fresh(reloaded)
    ensures reloaded.pages == InitialPages && reloaded.stored == None
  {
    editor.ClearContent();
    reloaded := new WordEditor(editor.stored);
    reloaded.LoadSaved();
  }
}
