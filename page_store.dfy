/** The page sequence: an ordered list of page records whose ids are their
    1-based positions and whose header and footer are one shared value stored on
    every record. The structural operations are the state updaters of the
    editor component: each builds a new list from the previous one. */
module PageStore {

  datatype Option<T> = None | Some(value: T)

  /** One sheet of the document: its body, and copies of the shared header and
      footer, all as HTML text. */
  datatype Page = Page(id: int, content: string, header: string, footer: string)

  /** The page a fresh document consists of, and the fallback of the trimmer. */
  const EmptyPage: Page := Page(1, "", "", "")

  /** The document the editor starts with. */
  function InitialPages(): (r: seq<Page>)
    ensures StoreValid(r) && |r| == 1
    ensures r[0].content == "" && r[0].header == "" && r[0].footer == ""
  {
    [EmptyPage]
  }

  /** `pages[i].id == i + 1` for every position. */
  predicate DenseIds(ps: seq<Page>) {
    forall i :: 0 <= i < |ps| ==> ps[i].id == i + 1
  }

  /** Every page carries the header and the footer of the first page. */
  predicate SharedHeaderFooter(ps: seq<Page>) {
    forall i :: 0 <= i < |ps| ==> ps[i].header == ps[0].header && ps[i].footer == ps[0].footer
  }

  /** The invariant of the page sequence. */
  predicate StoreValid(ps: seq<Page>) {
    |ps| >= 1 && DenseIds(ps) && SharedHeaderFooter(ps)
  }

  /** `prev[0]?.header || ""`: the header a new page inherits. */
  function InheritedHeader(ps: seq<Page>): string {
    if |ps| == 0 then "" else ps[0].header
  }

  /** `prev[0]?.footer || ""`: the footer a new page inherits. */
  function InheritedFooter(ps: seq<Page>): string {
    if |ps| == 0 then "" else ps[0].footer
  }

  /** `ps.map((p, i) => ({ ...p, id: i + 1 }))`. */
  function Renumber(ps: seq<Page>): (r: seq<Page>)
    ensures |r| == |ps| && DenseIds(r)
    ensures forall i :: 0 <= i < |ps| ==> r[i] == ps[i].(id := i + 1)
    ensures SharedHeaderFooter(ps) ==> SharedHeaderFooter(r)
  {
    seq(|ps|, i requires 0 <= i < |ps| => ps[i].(id := i + 1))
  }

  /** Renumbering a list whose ids are already dense changes nothing. */
  lemma RenumberDense(ps: seq<Page>)
    requires DenseIds(ps)
    ensures Renumber(ps) == ps
  {
    assert forall i :: 0 <= i < |ps| ==> Renumber(ps)[i] == ps[i];
  }

  function Min(a: int, b: int): int {
    if a <= b then a else b
  }

  /** `ps.splice(start, 0, p)` for a start that is not negative: past the end
      it appends. */
  function Splice(ps: seq<Page>, start: nat, p: Page): (r: seq<Page>)
    ensures |r| == |ps| + 1
    ensures var at := Min(start, |ps|);
      && r[at] == p
      && (forall i :: 0 <= i < at ==> r[i] == ps[i])
      && (forall i :: at < i < |r| ==> r[i] == ps[i - 1])
  {
    var at := Min(start, |ps|);
    ps[..at] + [p] + ps[at..]
  }

  /** The state updater of `insertPageBreak(targetIndex)`. `before` is the body
      left on the target page when the cursor split succeeded, `None` when it did
      not; `after` is the body of the new page (empty when the split did not
      happen). The new page goes right after the target (at the end when the
      target is past the end), inherits the first page's header and footer, and
      ids are renumbered. */
  function InsertPageBreak(prev: seq<Page>, targetIndex: nat, before: Option<string>, after: string): (r: seq<Page>)
    requires before.Some? ==> targetIndex < |prev|
    ensures |r| == |prev| + 1 && DenseIds(r)
    ensures var at := Min(targetIndex + 1, |prev|);
      && r[at] == Page(at + 1, after, InheritedHeader(prev), InheritedFooter(prev))
      && (forall i :: 0 <= i < at && i != targetIndex ==> r[i] == prev[i].(id := i + 1))
      && (forall i :: at < i < |r| ==> r[i] == prev[i - 1].(id := i + 1))
    ensures targetIndex < |prev| ==>
      r[targetIndex] == prev[targetIndex].(id := targetIndex + 1,
                                           content := if before.Some? then before.value else prev[targetIndex].content)
    ensures SharedHeaderFooter(prev) ==> StoreValid(r)
  {
    var updated := if before.Some? then prev[targetIndex := prev[targetIndex].(content := before.value)] else prev;
    var newPage := Page(|prev| + 1, after, InheritedHeader(prev), InheritedFooter(prev));
    Renumber(Splice(updated, targetIndex + 1, newPage))
  }

  /** The state updater of `ensureNextPage(fromIndex)`: when a page follows
      `fromIndex` the list is returned as it is; otherwise one empty page
      inheriting the first page's header and footer is appended (the splice
      position `fromIndex + 1` is then at or past the end) and ids are
      renumbered. */
  function EnsureNextPage(prev: seq<Page>, fromIndex: nat): (r: seq<Page>)
    ensures fromIndex + 1 < |prev| ==> r == prev
    ensures fromIndex + 1 >= |prev| ==>
      && |r| == |prev| + 1 && DenseIds(r)
      && r[|prev|] == Page(|prev| + 1, "", InheritedHeader(prev), InheritedFooter(prev))
      && (forall i :: 0 <= i < |prev| ==> r[i] == prev[i].(id := i + 1))
    ensures StoreValid(prev) ==> StoreValid(r)
  {
    if fromIndex + 1 < |prev| then prev
    else
      Renumber(Splice(prev, fromIndex + 1, Page(|prev| + 1, "", InheritedHeader(prev), InheritedFooter(prev))))
  }

  /** Creating the missing next page is a page break that splits nothing. */
  lemma EnsureNextIsEmptyBreak(prev: seq<Page>, fromIndex: nat)
    requires fromIndex + 1 >= |prev|
    ensures EnsureNextPage(prev, fromIndex) == InsertPageBreak(prev, fromIndex, None, "")
  {
  }

  /** `pages.filter((_, i) => i !== index)`. */
  function RemoveAt(ps: seq<Page>, index: int): (r: seq<Page>)
    ensures 0 <= index < |ps| ==> |r| == |ps| - 1
    ensures !(0 <= index < |ps|) ==> r == ps
    ensures forall i :: 0 <= i < |r| ==> r[i] == ps[if 0 <= index <= i then i + 1 else i]
  {
    if 0 <= index < |ps| then ps[..index] + ps[index + 1..] else ps
  }

  /** `deletePage(index)`: the new page list and the new current page. On a
      one-page document nothing changes. Otherwise the page at `index` (if
      there is one) is removed, the others keep their order, ids are
      renumbered, and a current page at or past the new length moves to the new
      last page. */
  function DeletePage(pages: seq<Page>, currentPage: int, index: int): (r: (seq<Page>, int))
    ensures |pages| <= 1 ==> r == (pages, currentPage)
    ensures |pages| > 1 ==>
      var n := if 0 <= index < |pages| then |pages| - 1 else |pages|;
      && |r.0| == n && n >= 1 && DenseIds(r.0)
      && (forall i :: 0 <= i < n ==> r.0[i] == pages[if 0 <= index <= i then i + 1 else i].(id := i + 1))
      && r.1 == (if currentPage >= n then n - 1 else currentPage)
    ensures StoreValid(pages) ==> StoreValid(r.0)
  {
    if |pages| > 1 then
      var newPages := RemoveAt(pages, index);
      (Renumber(newPages), if currentPage >= |newPages| then |newPages| - 1 else currentPage)
    else
      (pages, currentPage)
  }

  /** Deleting the page a break has just inserted gives back the document. */
  lemma {:induction false} DeleteUndoesBreak(prev: seq<Page>, targetIndex: nat, after: string, currentPage: int)
    requires StoreValid(prev) && targetIndex < |prev|
    ensures DeletePage(InsertPageBreak(prev, targetIndex, None, after), currentPage, targetIndex + 1).0 == prev
  {
    var mid := InsertPageBreak(prev, targetIndex, None, after);
    var r := DeletePage(mid, currentPage, targetIndex + 1).0;
    assert |r| == |prev|;
    forall i | 0 <= i < |prev| ensures r[i] == prev[i] {
      if i <= targetIndex {
        assert r[i] == mid[i].(id := i + 1);
      } else {
        assert r[i] == mid[i + 1].(id := i + 1);
      }
    }
  }

  /** Which shared field the header/footer editor is writing. */
  datatype Region = HeaderRegion | FooterRegion

  /** `newPages.forEach((page) => { page.header = html; })` (or `page.footer`):
      every page gets the same value in the edited region; bodies, ids and the
      other region are left as they were. */
  method Broadcast(pages: seq<Page>, region: Region, html: string) returns (r: seq<Page>)
    ensures |r| == |pages|
    ensures forall i :: 0 <= i < |r| ==>
      r[i] == if region == HeaderRegion then pages[i].(header := html) else pages[i].(footer := html)
    ensures pages != [] && (region == HeaderRegion ==> SharedFooterOnly(pages)) && (region == FooterRegion ==> SharedHeaderOnly(pages))
      ==> SharedHeaderFooter(r)
  {
    r := pages;
    for i := 0 to |pages|
      invariant |r| == |pages|
      invariant forall k :: 0 <= k < i ==>
        r[k] == if region == HeaderRegion then pages[k].(header := html) else pages[k].(footer := html)
      invariant forall k :: i <= k < |pages| ==> r[k] == pages[k]
    {
      if region == HeaderRegion {
        r := r[i := r[i].(header := html)];
      } else {
        r := r[i := r[i].(footer := html)];
      }
    }
  }

  /** Every page carries the first page's footer. */
  predicate SharedFooterOnly(ps: seq<Page>) {
    forall i :: 0 <= i < |ps| ==> ps[i].footer == ps[0].footer
  }

  /** Every page carries the first page's header. */
  predicate SharedHeaderOnly(ps: seq<Page>) {
    forall i :: 0 <= i < |ps| ==> ps[i].header == ps[0].header
  }
}
