/** The overflow split run on paste: the backward scan for a split point, the
    page list one pass of the paste handler produces, and what that pass keeps,
    moves and re-checks. The rendered height of a page is a parameter
    `H: string -> int`, a function of the page's markup. */
module Pagination {
  import opened Document

  /** `maxContentHeight`: the height budget of one page. */
  const MaxContentHeight: int := 750

  predicate Overflows(H: string -> int, s: string)
  {
    H(s) > MaxContentHeight
  }

  /** The prefix length the backward scan stops at when it starts from the
      prefix of length `k`: it gives up shortening at one character, and stops
      early at the first prefix that fits. */
  function ScanFrom(content: string, H: string -> int, k: nat): (r: nat)
    requires 1 <= k <= |content|
    ensures 1 <= r <= k
    ensures r == 1 || !Overflows(H, content[..r])
    ensures forall j :: r < j <= k ==> Overflows(H, content[..j])
    decreases k
  {
    if k == 1 || !Overflows(H, content[..k]) then k
    else ScanFrom(content, H, k - 1)
  }

  /** The split point the scan finds is the only one with its boundary
      property: the kept prefix fits or is a single character, and every
      longer prefix overflows. A faster search that keeps this property
      returns the same split. */
  lemma ScanFromIsTheBoundary(content: string, H: string -> int, r: nat)
    requires 1 <= r <= |content|
    requires r == 1 || !Overflows(H, content[..r])
    requires forall j :: r < j <= |content| ==> Overflows(H, content[..j])
    ensures r == ScanFrom(content, H, |content|)
  {
  }

  /** The inner `while` of `handlePaste`: `shown` is the page's `innerHTML`,
      cut to `content.substring(0, splitPoint)` before each decrement. */
  method ScanSplit(content: string, H: string -> int) returns (kept: string, splitPoint: int)
    requires |content| > 0
    ensures 0 <= splitPoint < |content|
    ensures kept == content[..splitPoint + 1]
    ensures |kept| == ScanFrom(content, H, |content|)
    ensures !Overflows(H, kept) || splitPoint == 0
    ensures forall k :: |kept| < k <= |content| ==> Overflows(H, content[..k])
  {
    var shown := content;
    splitPoint := |content| - 1;
    while splitPoint > 0 && Overflows(H, shown)
      invariant 0 <= splitPoint < |content|
      invariant shown == content[..splitPoint + 1]
      invariant ScanFrom(content, H, splitPoint + 1) == ScanFrom(content, H, |content|)
      decreases splitPoint
    {
      shown := content[..splitPoint];
      splitPoint := splitPoint - 1;
    }
    kept := shown;
  }

  /** The page `handlePaste` edits: the element found under the last page's id. */
  function TargetIndex(pages: seq<Page>): (t: nat)
    requires pages != []
    ensures t < |pages|
    ensures pages[t].id == pages[|pages| - 1].id
    ensures forall j :: 0 <= j < t ==> pages[j].id != pages[t].id
  {
    ElementIndex(pages, pages[|pages| - 1].id)
  }

  /** With distinct ids the edited page is the last page. */
  lemma TargetIsLastWhenIdsDistinct(pages: seq<Page>)
    requires pages != []
    requires forall i, j :: 0 <= i < j < |pages| ==> pages[i].id != pages[j].id
    ensures TargetIndex(pages) == |pages| - 1
  {
  }

  /** With the last id repeated, the paste lands on an earlier page. */
  lemma TargetCanPrecedeLast()
    ensures TargetIndex([Page(1, ""), Page(3, ""), Page(3, "")]) == 1
  {
    var pages := [Page(1, ""), Page(3, ""), Page(3, "")];
    assert pages[1..][0].id == 3;
  }

  /** The element `getElementById` finds under the new page's id `count + 1`
      while the handler runs: only the first `count` pages are rendered, the
      pages this handler appends are not yet. */
  function NewIdElement(pages: seq<Page>, count: nat): (e: nat)
    requires count <= |pages|
    ensures e <= count
    ensures e < count ==> pages[e].id == count + 1
    ensures forall j :: 0 <= j < e ==> pages[j].id != count + 1
  {
    ElementIndex(pages[..count], count + 1)
  }

  /** One pass of the outer loop on the target page `t`, `count` being the
      page count the handler captured: cut the target to the prefix the scan
      keeps, append a page with id `count + 1` holding the content from the
      split point on, and write that remainder also into the rendered page,
      if any, that already carries id `count + 1`. */
  function Pass(pages: seq<Page>, count: nat, t: nat, H: string -> int): seq<Page>
    requires t < count <= |pages|
    requires |pages[t].content| > 0
  {
    var content := pages[t].content;
    var k := ScanFrom(content, H, |content|);
    var remainder := content[k - 1..];
    var cut := pages[t := Page(pages[t].id, content[..k])] + [Page(count + 1, remainder)];
    var e := NewIdElement(pages, count);
    if e < count then cut[e := Page(cut[e].id, remainder)] else cut
  }

  /** A pass keeps every id and appends one page with the new id, so the
      element found under the new id stays the same. */
  lemma PassKeepsIds(pages: seq<Page>, count: nat, t: nat, H: string -> int)
    requires t < count <= |pages|
    requires |pages[t].content| > 0
    ensures var r := Pass(pages, count, t, H);
      && |r| == |pages| + 1
      && (forall i :: 0 <= i < |pages| ==> r[i].id == pages[i].id)
      && r[|pages|].id == count + 1
      && NewIdElement(r, count) == NewIdElement(pages, count)
  {
    var r := Pass(pages, count, t, H);
    assert forall i :: 0 <= i < |pages| ==> r[i].id == pages[i].id;
    ElementIndexByIds(r[..count], pages[..count], count + 1);
  }

  /** What a pass writes: the appended page holds the remainder; the target
      keeps the prefix, unless it is the page first carrying the new id, which
      takes the remainder; no other page changes. */
  lemma PassContents(pages: seq<Page>, count: nat, t: nat, H: string -> int)
    requires t < count <= |pages|
    requires |pages[t].content| > 0
    ensures var r := Pass(pages, count, t, H);
      var content := pages[t].content;
      var k := ScanFrom(content, H, |content|);
      var e := NewIdElement(pages, count);
      && |r| == |pages| + 1
      && r[|pages|].content == content[k - 1..]
      && r[t].content == (if e == t then content[k - 1..] else content[..k])
      && (e < count ==> r[e].content == content[k - 1..])
      && (forall i :: 0 <= i < |pages| && i != t && i != e ==> r[i] == pages[i])
  {
  }

  /** Both halves together. */
  lemma PassFacts(pages: seq<Page>, count: nat, t: nat, H: string -> int)
    requires t < count <= |pages|
    requires |pages[t].content| > 0
    ensures var r := Pass(pages, count, t, H);
      var content := pages[t].content;
      var k := ScanFrom(content, H, |content|);
      var e := NewIdElement(pages, count);
      && |r| == |pages| + 1
      && (forall i :: 0 <= i < |pages| ==> r[i].id == pages[i].id)
      && NewIdElement(r, count) == e
      && r[|pages|] == Page(count + 1, content[k - 1..])
      && r[t].content == (if e == t then content[k - 1..] else content[..k])
      && (e < count ==> r[e].content == content[k - 1..])
      && (forall i :: 0 <= i < |pages| && i != t && i != e ==> r[i] == pages[i])
  {
    PassKeepsIds(pages, count, t, H);
    PassContents(pages, count, t, H);
  }

  /** The body of the outer `while` of `handlePaste`: the scan on the target,
      then the cut, the appended page and the write under the new page's id. */
  method SplitPass(pages: seq<Page>, count: nat, t: nat, H: string -> int) returns (next: seq<Page>)
    requires t < count <= |pages|
    requires |pages[t].content| > 0
    ensures next == Pass(pages, count, t, H)
  {
    var content := pages[t].content;
    var kept, splitPoint := ScanSplit(content, H);
    var remainingText := content[splitPoint..];
    var newPageId := count + 1;
    next := pages[t := Page(pages[t].id, kept)] + [Page(newPageId, remainingText)];
    var newPage := ElementIndex(pages[..count], newPageId);
    if newPage < count {
      next := next[newPage := Page(next[newPage].id, remainingText)];
    }
  }

  /** The outer loop ends when started on target content `s`. When the target
      itself carries the new page id (`collides`), each pass overwrites it with
      the remainder, so the loop goes on until a remainder fits and ends only
      if every pass cut at least two characters; otherwise the target keeps
      the prefix and one pass ends it exactly when that prefix fits. */
  predicate PassesEnd(H: string -> int, s: string, collides: bool)
    decreases |s|
  {
    !Overflows(H, s) ||
    (|s| > 0 &&
      var k := ScanFrom(s, H, |s|);
      if collides then k > 1 && PassesEnd(H, s[k - 1..], true)
      else !Overflows(H, s[..k]))
  }

  /** The pages when the outer loop exits, from a state where the target holds `pages[t]`. */
  function AfterPasses(pages: seq<Page>, count: nat, t: nat, H: string -> int): seq<Page>
    requires t < count <= |pages|
    requires PassesEnd(H, pages[t].content, NewIdElement(pages, count) == t)
    decreases |pages[t].content|
  {
    if !Overflows(H, pages[t].content) then pages
    else
      PassFacts(pages, count, t, H);
      assert pages[t].content[..|pages[t].content|] == pages[t].content;
      AfterPasses(Pass(pages, count, t, H), count, t, H)
  }

  /** A pass on an overflowing target keeps the loop's ending condition, shortens
      the target, and leaves the final page list as it was going to be. */
  lemma PassProgress(pages: seq<Page>, count: nat, t: nat, H: string -> int)
    requires t < count <= |pages|
    requires PassesEnd(H, pages[t].content, NewIdElement(pages, count) == t)
    requires Overflows(H, pages[t].content)
    ensures |pages[t].content| > 0
    ensures var r := Pass(pages, count, t, H);
      && |r| == |pages| + 1
      && |r[t].content| < |pages[t].content|
      && PassesEnd(H, r[t].content, NewIdElement(r, count) == t)
      && AfterPasses(r, count, t, H) == AfterPasses(pages, count, t, H)
  {
    var content := pages[t].content;
    assert content[..|content|] == content;
    PassFacts(pages, count, t, H);
  }

  /** The edited page's content with the pasted text appended. */
  function PastedContent(pages: seq<Page>, pasted: string): string
    requires pages != []
  {
    pages[TargetIndex(pages)].content + pasted
  }

  /** `handlePaste` returns: its outer loop ends on this paste. */
  predicate PasteEnds(pages: seq<Page>, pasted: string, H: string -> int)
    requires pages != []
  {
    PassesEnd(H, PastedContent(pages, pasted), ElementIndex(pages, |pages| + 1) == TargetIndex(pages))
  }

  /** The page list after `handlePaste`: the text is appended to the target,
      then the outer loop runs its passes. */
  function PasteResult(pages: seq<Page>, pasted: string, H: string -> int): seq<Page>
    requires pages != []
    requires PasteEnds(pages, pasted, H)
  {
    var t := TargetIndex(pages);
    var appended := pages[t := Page(pages[t].id, pages[t].content + pasted)];
    ElementIndexByIds(appended[..|pages|], pages, |pages| + 1);
    AfterPasses(appended, |pages|, t, H)
  }

  /** The target is overwritten by the remainders exactly when the last
      page's id equals the page count plus one, as after deleting a page
      other than the last. */
  lemma CollidesIffLastIdIsNewId(pages: seq<Page>)
    requires pages != []
    ensures ElementIndex(pages, |pages| + 1) == TargetIndex(pages) <==> pages[|pages| - 1].id == |pages| + 1
  {
  }

  /** Whatever the passes, a paste that returns leaves the target within the
      budget, keeps every page's id, edits no page but the target and the
      page first carrying the new id, and appends only pages with the new id. */
  lemma {:induction false} AfterPassesFrame(pages: seq<Page>, count: nat, t: nat, H: string -> int)
    requires t < count <= |pages|
    requires PassesEnd(H, pages[t].content, NewIdElement(pages, count) == t)
    ensures var r := AfterPasses(pages, count, t, H);
      && |r| >= |pages|
      && !Overflows(H, r[t].content)
      && (forall i :: 0 <= i < |pages| ==> r[i].id == pages[i].id)
      && (forall i :: 0 <= i < |pages| && i != t && i != NewIdElement(pages, count) ==> r[i] == pages[i])
      && (forall i :: |pages| <= i < |r| ==> r[i].id == count + 1)
    decreases |pages[t].content|
  {
    if Overflows(H, pages[t].content) {
      var content := pages[t].content;
      assert content[..|content|] == content;
      PassFacts(pages, count, t, H);
      AfterPassesFrame(Pass(pages, count, t, H), count, t, H);
    }
  }

  /** Where the target does not carry the new id, one pass ends the loop. */
  lemma OnePassWithoutCollision(pages: seq<Page>, count: nat, t: nat, H: string -> int)
    requires t < count <= |pages|
    requires NewIdElement(pages, count) != t
    requires PassesEnd(H, pages[t].content, false)
    requires Overflows(H, pages[t].content)
    ensures AfterPasses(pages, count, t, H) == Pass(pages, count, t, H)
  {
    var content := pages[t].content;
    assert content[..|content|] == content;
    PassFacts(pages, count, t, H);
    var r := Pass(pages, count, t, H);
    assert !Overflows(H, r[t].content);
  }

  /** Appending the pasted text changes no id, so the page first carrying the
      new id is the same before and after. */
  lemma AppendKeepsNewIdElement(pages: seq<Page>, pasted: string)
    requires pages != []
    ensures var t := TargetIndex(pages);
      NewIdElement(pages[t := Page(pages[t].id, PastedContent(pages, pasted))], |pages|)
        == ElementIndex(pages, |pages| + 1)
  {
    var t := TargetIndex(pages);
    var appended := pages[t := Page(pages[t].id, PastedContent(pages, pasted))];
    assert appended[..|pages|] == appended;
    ElementIndexByIds(appended, pages, |pages| + 1);
  }

  /** The paste is the outer loop run from the target holding the appended text. */
  lemma PasteResultFromAppended(pages: seq<Page>, pasted: string, H: string -> int)
    requires pages != []
    requires PasteEnds(pages, pasted, H)
    ensures var t := TargetIndex(pages);
      var appended := pages[t := Page(pages[t].id, PastedContent(pages, pasted))];
      && NewIdElement(appended, |pages|) == ElementIndex(pages, |pages| + 1)
      && PasteResult(pages, pasted, H) == AfterPasses(appended, |pages|, t, H)
  {
    AppendKeepsNewIdElement(pages, pasted);
  }

  /** When no page carries the new id, no rendered page is found under it, so
      the paste starts without a collision. */
  lemma PasteStart(pages: seq<Page>, pasted: string, H: string -> int)
    requires pages != []
    requires forall p :: p in pages ==> p.id != |pages| + 1
    requires PasteEnds(pages, pasted, H)
    ensures var t := TargetIndex(pages);
      NewIdElement(pages[t := Page(pages[t].id, PastedContent(pages, pasted))], |pages|) == |pages|
    ensures PassesEnd(H, PastedContent(pages, pasted), false)
  {
    ElementIndexOfAbsentId(pages, |pages| + 1);
    PasteResultFromAppended(pages, pasted, H);
  }

  /** When the appended text fits, the outer loop never runs, whatever ids
      the pages carry: the paste returns, the target takes the text, no page
      is added and nothing else changes. */
  lemma PasteThatFits(pages: seq<Page>, pasted: string, H: string -> int)
    requires pages != []
    requires !Overflows(H, PastedContent(pages, pasted))
    ensures PasteEnds(pages, pasted, H)
    ensures PasteResult(pages, pasted, H)
      == pages[TargetIndex(pages) := Page(pages[TargetIndex(pages)].id, PastedContent(pages, pasted))]
  {
    PasteResultFromAppended(pages, pasted, H);
  }

  /** When no page carries the new id and the appended text overflows, the
      paste is one pass: the target keeps the prefix the scan stops at, which
      fits, and one page with the new id takes the content from the split
      point on; every other page is untouched. */
  lemma PasteThatSplits(pages: seq<Page>, pasted: string, H: string -> int)
    requires pages != []
    requires forall p :: p in pages ==> p.id != |pages| + 1
    requires PasteEnds(pages, pasted, H)
    requires Overflows(H, PastedContent(pages, pasted))
    ensures var r := PasteResult(pages, pasted, H);
      var t := TargetIndex(pages);
      var full := PastedContent(pages, pasted);
      var k := ScanFrom(full, H, |full|);
      && |r| == |pages| + 1
      && (forall i :: 0 <= i < |pages| && i != t ==> r[i] == pages[i])
      && r[t] == Page(pages[t].id, full[..k])
      && !Overflows(H, r[t].content)
      && r[|pages|] == Page(|pages| + 1, full[k - 1..])
  {
    var t := TargetIndex(pages);
    var appended := pages[t := Page(pages[t].id, PastedContent(pages, pasted))];
    PasteStart(pages, pasted, H);
    PasteResultFromAppended(pages, pasted, H);
    OnePassWithoutCollision(appended, |pages|, t, H);
    PassFacts(appended, |pages|, t, H);
  }

  /** On a split, the kept prefix and the new page share exactly one
      character, the one at the split point: together they hold one character
      more than the appended text, so the split is not lossless. */
  lemma SplitOverlap(full: string, H: string -> int)
    requires |full| > 0
    ensures var k := ScanFrom(full, H, |full|);
      var kept := full[..k];
      var moved := full[k - 1..];
      && |kept| + |moved| == |full| + 1
      && kept + moved[1..] == full
      && kept[|kept| - 1] == moved[0]
      && kept + moved != full
  {
    var k := ScanFrom(full, H, |full|);
    assert full[k - 1..][1..] == full[k..];
    assert full[..k] + full[k..] == full;
  }

  /** When the pass does not end the loop, it leaves a target on which it
      does not end either, and the target still overflows: `handlePaste`
      never returns. On an empty target that overflows the inner loop does
      not run and the remainder is empty, so each pass leaves the target as it
      is, empties the page found under the new id and appends an empty page; that pass is outside `Pass`, whose target
      is not empty, and here the lemma states only that the target overflows. */
  lemma UnendingPasses(pages: seq<Page>, count: nat, t: nat, H: string -> int)
    requires t < count <= |pages|
    requires !PassesEnd(H, pages[t].content, NewIdElement(pages, count) == t)
    ensures Overflows(H, pages[t].content)
    ensures |pages[t].content| > 0 ==>
      var r := Pass(pages, count, t, H);
      !PassesEnd(H, r[t].content, NewIdElement(r, count) == t)
  {
    var content := pages[t].content;
    if |content| > 0 {
      PassFacts(pages, count, t, H);
      var k := ScanFrom(content, H, |content|);
      assert content[k - 1..] == content || k > 1;
      assert content[..1][..1] == content[..1];
    }
  }

  /** A height under which two characters fit on a page and three do not. */
  function TwoCharsPerPage(s: string): int
  {
    if |s| <= 2 then 0 else 1000
  }

  /** The scan on "abc" under `TwoCharsPerPage` keeps "ab". */
  lemma TwoCharScan()
    ensures ScanFrom("abc", TwoCharsPerPage, 3) == 2
    ensures "abc"[..2] == "ab" && "abc"[1..] == "bc"
    ensures Overflows(TwoCharsPerPage, "abc") && !Overflows(TwoCharsPerPage, "bc")
  {
    var full := "abc";
    assert full[..3] == full && full[..2] == "ab";
  }

  /** The pass behind `PasteCanLoseKeptText`: page 3 is the target and the
      page found under the new id 3, so it takes the remainder "bc". */
  lemma CollidingPass()
    ensures Pass([Page(1, ""), Page(3, "abc")], 2, 1, TwoCharsPerPage)
      == [Page(1, ""), Page(3, "bc"), Page(3, "bc")]
  {
    var appended := [Page(1, ""), Page(3, "abc")];
    TwoCharScan();
    assert appended[..2] == appended;
    assert ElementIndex(appended, 3) == 1 by { assert appended[1..][0].id == 3; }
    var cut := [Page(1, ""), Page(3, "ab"), Page(3, "bc")];
    assert appended[1 := Page(3, "ab")] + [Page(3, "bc")] == cut;
    assert cut[1 := Page(3, "bc")] == [Page(1, ""), Page(3, "bc"), Page(3, "bc")];
  }

  /** After page 2 of 3 is deleted, a paste into page 3 that splits
      overwrites page 3 with the remainder: the kept "a" is on no page. */
  lemma PasteCanLoseKeptText()
    ensures PasteEnds([Page(1, ""), Page(3, "ab")], "c", TwoCharsPerPage)
    ensures PasteResult([Page(1, ""), Page(3, "ab")], "c", TwoCharsPerPage)
      == [Page(1, ""), Page(3, "bc"), Page(3, "bc")]
  {
    var H := TwoCharsPerPage;
    var pages := [Page(1, ""), Page(3, "ab")];
    TwoCharScan();
    assert ElementIndex(pages, 3) == 1 by { assert pages[1..][0].id == 3; }
    assert TargetIndex(pages) == 1;
    assert PastedContent(pages, "c") == "abc";
    assert PassesEnd(H, "bc", true);
    var appended := [Page(1, ""), Page(3, "abc")];
    assert pages[1 := Page(3, pages[1].content + "c")] == appended;
    assert appended[..2] == appended;
    var r := [Page(1, ""), Page(3, "bc"), Page(3, "bc")];
    assert r[..2] == [Page(1, ""), Page(3, "bc")];
    assert PasteResult(pages, "c", H) == AfterPasses(appended, 2, 1, H);
    CollidingPass();
    PassProgress(appended, 2, 1, H);
    assert AfterPasses(r, 2, 1, H) == r;
  }

  /** The pass behind `PasteCanOverwriteOtherPage`: page 2 is the target,
      and the first page carries the new id 3, so it takes the remainder. */
  lemma OverwritingPass()
    ensures Pass([Page(3, "x"), Page(2, "abc")], 2, 1, TwoCharsPerPage)
      == [Page(3, "bc"), Page(2, "ab"), Page(3, "bc")]
  {
    var appended := [Page(3, "x"), Page(2, "abc")];
    TwoCharScan();
    assert appended[..2] == appended;
    assert ElementIndex(appended, 3) == 0;
    var cut := [Page(3, "x"), Page(2, "ab"), Page(3, "bc")];
    assert appended[1 := Page(2, "ab")] + [Page(3, "bc")] == cut;
    assert cut[0 := Page(3, "bc")] == [Page(3, "bc"), Page(2, "ab"), Page(3, "bc")];
  }

  /** A page that already carries the new id, other than the target, is
      overwritten with the remainder: its "x" is lost. */
  lemma PasteCanOverwriteOtherPage()
    ensures PasteEnds([Page(3, "x"), Page(2, "ab")], "c", TwoCharsPerPage)
    ensures PasteResult([Page(3, "x"), Page(2, "ab")], "c", TwoCharsPerPage)
      == [Page(3, "bc"), Page(2, "ab"), Page(3, "bc")]
  {
    var H := TwoCharsPerPage;
    var pages := [Page(3, "x"), Page(2, "ab")];
    TwoCharScan();
    assert ElementIndex(pages, 2) == 1 by { assert pages[1..][0].id == 2; }
    assert ElementIndex(pages, 3) == 0;
    assert TargetIndex(pages) == 1;
    assert PastedContent(pages, "c") == "abc";
    var appended := [Page(3, "x"), Page(2, "abc")];
    assert pages[1 := Page(2, pages[1].content + "c")] == appended;
    PasteResultFromAppended(pages, "c", H);
    OverwritingPass();
    OnePassWithoutCollision(appended, 2, 1, H);
  }

  /** A height under which one character fits on a page and two do not. */
  function OneCharPerPage(s: string): int
  {
    if |s| <= 1 then 0 else 1000
  }

  /** The scan on "abc" under `OneCharPerPage` gives up at one character. */
  lemma OneCharScan()
    ensures ScanFrom("abc", OneCharPerPage, 3) == 1
    ensures PassesEnd(OneCharPerPage, "abc", false)
  {
    var full := "abc";
    assert full[..3] == full && full[..2] == "ab" && full[..1] == "a";
    assert ScanFrom(full, OneCharPerPage, 2) == 1;
  }

  /** The new page is not re-checked: when only one character fits, the
      target keeps the first character and the new page holds the whole
      appended text, which still overflows. */
  lemma MovedPageCanOverflow()
    ensures PasteEnds([Page(1, "ab")], "c", OneCharPerPage)
    ensures PasteResult([Page(1, "ab")], "c", OneCharPerPage) == [Page(1, "a"), Page(2, "abc")]
    ensures Overflows(OneCharPerPage, "abc")
  {
    var pages := [Page(1, "ab")];
    OneCharScan();
    assert TargetIndex(pages) == 0;
    assert PastedContent(pages, "c") == "abc";
    assert pages[1..] == [];
    assert ElementIndex(pages, 2) == 1;
    var appended := [Page(1, "abc")];
    assert pages[0 := Page(1, pages[0].content + "c")] == appended;
    assert appended[..1] == appended;
    assert PasteResult(pages, "c", OneCharPerPage) == AfterPasses(appended, 1, 0, OneCharPerPage);
    OnePassWithoutCollision(appended, 1, 0, OneCharPerPage);
    var cut := [Page(1, "a"), Page(2, "abc")];
    assert "abc"[..1] == "a" && "abc"[0..] == "abc";
    assert cut[..1] == [Page(1, "a")];
    assert ElementIndex(cut[..1], 2) == 1;
    assert Pass(appended, 1, 0, OneCharPerPage) == cut;
  }
}
