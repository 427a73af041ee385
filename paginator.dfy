/** The pagination controller of the editor component: the page list (React
    state), the page editors that are mounted (their child lists), and the
    operations that keep the two in step: saving an edit, breaking a page at the
    cursor, deleting a page, and resolving overflow by moving content forward.

    Height is measured by a collaborator, passed in as `height`. Every deferred
    continuation of the source (a `setTimeout` waiting for React to render) is
    run at once, after the re-render it waited for. */
module Paginator {
  import opened HtmlText
  import opened PageStore
  import opened Trimmer
  import opened Content

  /** Height budget of a page body. */
  const ContentMaxHeight: nat := 950
  /** Slack allowed above the budget before a page counts as overflowing. */
  const OverflowTolerance: nat := 4
  /** The resolver gives up once its pass counter exceeds this. */
  const MaxDepth: nat := 20

  /** `editor.scrollHeight > CONTENT_MAX_HEIGHT + 4`. */
  predicate Overflowing(height: seq<Node> -> nat, nodes: seq<Node>) {
    height(nodes) > ContentMaxHeight + OverflowTolerance
  }

  /** What the inner `while (isOverflowing())` loop leaves of a page and the
      page after it: nothing changes once the page fits or nothing is left to
      move; otherwise one `MoveOne` step is taken and the loop goes on. The page
      ends up fitting or holding only spacers, and it never gets heavier. */
  function Settle(height: seq<Node> -> nat, page: seq<Node>, next: seq<Node>): (r: (seq<Node>, seq<Node>))
    ensures !Overflowing(height, r.0) || forall k :: 0 <= k < |r.0| ==> IsSpacer(r.0[k])
    ensures Weight(r.0) <= Weight(page)
    decreases Weight(page)
  {
    if !Overflowing(height, page) then (page, next)
    else
      var s := MoveOne(page, next);
      if s.Stuck? then (page, next)
      else
        MoveOneShrinks(page, next);
        var r := Settle(height, s.page, s.next);
        assert Weight(r.0) <= Weight(page);
        r
  }

  /** Settling keeps the non-whitespace characters of the two pages, read in
      order. */
  lemma {:induction false} SettleKeepsInk(height: seq<Node> -> nat, page: seq<Node>, next: seq<Node>)
    ensures var r := Settle(height, page, next);
      PageInk(r.0) + PageInk(r.1) == PageInk(page) + PageInk(next)
    decreases Weight(page)
  {
    if Overflowing(height, page) {
      var s := MoveOne(page, next);
      if s.Moved? {
        MoveOneShrinks(page, next);
        MoveOneKeepsInk(page, next);
        SettleKeepsInk(height, s.page, s.next);
      }
    }
  }

  /** The page list re-read from the editors, before trimming: each body is its
      editor's HTML where an editor is mounted, header and footer are reset to
      the first page's, and ids are renumbered. */
  function Resynced(prev: seq<Page>, units: seq<seq<Node>>): (r: seq<Page>)
    ensures |r| == |prev| && DenseIds(r) && SharedHeaderFooter(r)
  {
    seq(|prev|, i requires 0 <= i < |prev| =>
      Page(i + 1, if i < |units| then Serialize(units[i]) else prev[i].content,
           InheritedHeader(prev), InheritedFooter(prev)))
  }

  /** The state updater that follows a successful overflow move. */
  function SyncFromEditors(prev: seq<Page>, units: seq<seq<Node>>): (r: seq<Page>)
    ensures StoreValid(r)
  {
    TrimKeepsShared(Resynced(prev, units));
    Trimmed(Resynced(prev, units))
  }

  /** After the sync every kept page holds its editor's HTML and the first
      page's header and footer, and a page is dropped only when its editor
      shows no text. */
  lemma SyncShape(prev: seq<Page>, units: seq<seq<Node>>)
    requires |prev| >= 1 && |units| == |prev|
    ensures var r := SyncFromEditors(prev, units);
      && 1 <= |r| <= |prev|
      && (forall i :: 0 <= i < |r| ==>
            r[i] == Page(i + 1, Serialize(units[i]), prev[0].header, prev[0].footer))
      && (forall i :: |r| <= i < |prev| ==> IsBlank(Serialize(units[i])))
  {
    var s := Resynced(prev, units);
    var r := SyncFromEditors(prev, units);
    forall i | |r| <= i < |prev| ensures IsBlank(Serialize(units[i])) {
      assert s[i].content == Serialize(units[i]);
    }
  }

  /** A freshly mounted editor's children once the loading effect has written
      the page body into it. */
  function Loaded(content: string, parse: string -> seq<Node>): seq<Node> {
    if content == "" then [] else parse(content)
  }

  /** The mounted editors after React renders `pages`. Editors are keyed by
      position (the key is the page id, always its position plus one), so the
      editor at a position that still has a page keeps its children; editors
      past the end are unmounted; and the loading effect fills every editor
      whose HTML is empty with its page's body. */
  function Rendered(units: seq<seq<Node>>, pages: seq<Page>, parse: string -> seq<Node>): (r: seq<seq<Node>>)
    ensures |r| == |pages|
  {
    seq(|pages|, i requires 0 <= i < |pages| =>
      if i < |units| && Serialize(units[i]) != "" then units[i] else Loaded(pages[i].content, parse))
  }

  /** Because editors are keyed by position, a break after page `t` leaves
      every editor behind it in place while the pages shift one position on:
      the new, empty page and each displaced page are displayed by whatever
      editor already stands at their new position when that editor shows text,
      and only the last page, which has no editor yet, is loaded afresh. */
  lemma BreakKeepsMountedEditor(units: seq<seq<Node>>, pages: seq<Page>, t: nat, parse: string -> seq<Node>)
    requires StoreValid(pages) && |units| == |pages| && t < |pages|
    ensures var after := PageStore.InsertPageBreak(pages, t, None, "");
      var shown := Rendered(units, after, parse);
      && after[t + 1].content == ""
      && (forall i :: t + 1 < i < |after| ==> after[i].content == pages[i - 1].content)
      && (forall i :: t < i < |units| && Serialize(units[i]) != "" ==> shown[i] == units[i])
      && shown[|pages|] == Loaded(after[|pages|].content, parse)
  {
  }

  /** `headerFooterMode`: `null`, `'header'` or `'footer'`. */
  datatype Mode = Body | HeaderEditing | FooterEditing

  class Engine {
    /** The page list. */
    var pages: seq<Page>
    /** Index of the page being edited. */
    var currentPage: int
    /** The child lists of the page editors; editor `i` exists exactly when
        `i < |units|`. While the header or footer is being edited the page
        editors are unmounted, and this holds what they will show, freshly
        loaded, once body editing resumes. */
    var units: seq<seq<Node>>
    /** How the loading effect turns a page body into editor children. */
    const parse: string -> seq<Node>
    /** The outer HTML of an empty copy of a page editor element, attributes
        included: what a page break extracts from an editor with no children. */
    const emptyEditorShell: string

    ghost predicate Valid()
      reads this
    {
      StoreValid(pages) && |units| == |pages|
    }

    /** A new document: one empty page, shown in one empty editor. */
    constructor (parse: string -> seq<Node>, emptyEditorShell: string)
      ensures Valid() && pages == InitialPages() && currentPage == 0 && units == [[]]
      ensures this.parse == parse && this.emptyEditorShell == emptyEditorShell
    {
      pages := InitialPages();
      currentPage := 0;
      units := [[]];
      this.parse := parse;
      this.emptyEditorShell := emptyEditorShell;
    }

    /** `updatePages(pageIndex)`. In body mode the editor's HTML becomes the
        page's body (nothing happens when that editor is not mounted); in
        header or footer mode the header/footer editor's HTML is written to
        every page. The list is then trimmed and rendered, and in body mode the
        overflow resolver runs on the page. */
    method UpdatePages(mode: Mode, pageIndex: int, headerFooterHtml: string, height: seq<Node> -> nat)
      requires Valid()
      modifies this`pages, this`units
      ensures Valid()
      ensures mode == Body && !(0 <= pageIndex < old(|units|)) ==> pages == old(pages) && units == old(units)
      ensures mode != Body ==>
        && |pages| == |Trimmed(old(pages))|
        && forall i :: 0 <= i < |pages| ==>
             && pages[i].content == old(pages)[i].content
             && pages[i].header == (if mode == HeaderEditing then headerFooterHtml else old(pages)[i].header)
             && pages[i].footer == (if mode == FooterEditing then headerFooterHtml else old(pages)[i].footer)
      ensures mode != Body ==> units == Rendered([], pages, parse)
      ensures mode == Body && 0 <= pageIndex < old(|units|) ==>
        var saved := Trimmed(old(pages)[pageIndex := old(pages)[pageIndex].(content := Serialize(old(units)[pageIndex]))]);
        var shown := Rendered(old(units), saved, parse);
        pageIndex >= |shown| || !Overflowing(height, shown[pageIndex]) ==> pages == saved && units == shown
    {
      if mode == Body {
        if !(0 <= pageIndex < |units|) {
          return;
        }
        SaveBody(pageIndex, height);
      } else {
        SaveRegion(if mode == HeaderEditing then HeaderRegion else FooterRegion, headerFooterHtml);
      }
    }

    /** The body-mode half of `updatePages`: the editor's HTML becomes the
        page's body, the list is trimmed and rendered, and the overflow
        resolver runs on the page. */
    method SaveBody(pageIndex: nat, height: seq<Node> -> nat)
      requires Valid() && pageIndex < |units|
      modifies this`pages, this`units
      ensures Valid()
      ensures var saved := Trimmed(old(pages)[pageIndex := old(pages)[pageIndex].(content := Serialize(old(units)[pageIndex]))]);
        var shown := Rendered(old(units), saved, parse);
        pageIndex >= |shown| || !Overflowing(height, shown[pageIndex]) ==> pages == saved && units == shown
    {
      var saved := pages[pageIndex := pages[pageIndex].(content := Serialize(units[pageIndex]))];
      pages := TrimEmptyTrailingPages(saved);
      units := Rendered(units, pages, parse);
      SplitOverflow(pageIndex, 0, height);
    }

    /** The header/footer half of `updatePages`: the shared editor's HTML is
        written to that region of every page, the list is trimmed, and the page
        editors are rendered afresh. Trimming reads only bodies, so it keeps as
        many pages as it would have kept before the write. */
    method SaveRegion(region: Region, html: string)
      requires Valid()
      modifies this`pages, this`units
      ensures Valid()
      ensures |pages| == |Trimmed(old(pages))|
      ensures forall i :: 0 <= i < |pages| ==>
        && pages[i].content == old(pages)[i].content
        && pages[i].header == (if region == HeaderRegion then html else old(pages)[i].header)
        && pages[i].footer == (if region == FooterRegion then html else old(pages)[i].footer)
      ensures units == Rendered([], pages, parse)
    {
      var saved := Broadcast(pages, region, html);
      TrimmedSameBodies(pages, saved);
      pages := TrimEmptyTrailingPages(saved);
      units := Rendered([], pages, parse);
    }

    /** `insertPageBreak(targetIndex)`. `cursor` is the end of the selection as
        a position in the target editor's child list, `None` when there is no
        selection inside that editor. When there is one, the nodes from the
        cursor on are extracted from the editor and become the new page's body,
        and what is left becomes the target's body; otherwise an empty page is
        inserted. An editor with no children has no last child, so the range
        then ends after the editor element itself and the extracted fragment
        is an empty copy of that element. */
    method InsertPageBreak(targetIndex: nat, cursor: Option<nat>)
      requires Valid()
      modifies this`pages, this`units
      ensures Valid()
      ensures var split := cursor.Some? && targetIndex < old(|units|) && cursor.value <= |old(units)[targetIndex]|;
        pages == PageStore.InsertPageBreak(old(pages), targetIndex,
          if split then Some(Serialize(old(units)[targetIndex][..cursor.value])) else None,
          if !split then ""
          else if old(units)[targetIndex] == [] then emptyEditorShell
          else Serialize(old(units)[targetIndex][cursor.value..]))
      ensures var split := cursor.Some? && targetIndex < old(|units|) && cursor.value <= |old(units)[targetIndex]|;
        units == Rendered(if split then old(units)[targetIndex := old(units)[targetIndex][..cursor.value]] else old(units), pages, parse)
    {
      var after := "";
      var before: Option<string> := None;
      if cursor.Some? && targetIndex < |units| && cursor.value <= |units[targetIndex]| {
        var parts := CursorSplit(units[targetIndex], cursor.value);
        after := if units[targetIndex] == [] then emptyEditorShell else Serialize(parts.1);
        units := units[targetIndex := parts.0];
        before := Some(Serialize(parts.0));
      }
      pages := PageStore.InsertPageBreak(pages, targetIndex, before, after);
      units := Rendered(units, pages, parse);
    }

    /** `deletePage(index)`. */
    method DeletePage(index: int)
      requires Valid()
      modifies this`pages, this`currentPage, this`units
      ensures Valid()
      ensures (pages, currentPage) == PageStore.DeletePage(old(pages), old(currentPage), index)
      ensures units == Rendered(old(units), pages, parse)
    {
      var r := PageStore.DeletePage(pages, currentPage, index);
      pages, currentPage := r.0, r.1;
      units := Rendered(units, pages, parse);
    }

    /** `moveOneBlock` for page `p` and the page after it: walks back from the
        last child past spacers, then splits or moves as `MoveOne` says. */
    method MoveOneBlock(p: nat) returns (ok: bool)
      requires p + 1 < |units|
      modifies this`units
      ensures |units| == old(|units|)
      ensures var s := MoveOne(old(units)[p], old(units)[p + 1]);
        && ok == s.Moved?
        && units == if ok then old(units)[p := s.page][p + 1 := s.next] else old(units)
    {
      var page, next := units[p], units[p + 1];
      var j := SkipSpacers(page);
      if j < 0 {
        return false;
      }
      MoveOneCases(page, next);
      if page[j].Text? && |page| == 1 {
        var fullText := page[j].text;
        if Utf16Length(fullText) < MinSplitLength {
          units := units[p := []][p + 1 := [page[j]] + next];
          return true;
        }
        var splitIndex := TextSplitIndex(fullText);
        units := units[p := [Text(fullText[..splitIndex])]][p + 1 := [Text(fullText[splitIndex..])] + next];
        return true;
      }
      units := units[p := page[..j] + page[j + 1..]][p + 1 := [page[j]] + next];
      return true;
    }

    /** The inner `while (isOverflowing())` loop of `splitOverflow`: moves one
        block at a time from page `p` to page `p + 1` until the page fits or
        nothing is left to move, and not one step further: the two editors end
        as `Settle` says. Only those two editors change. */
    method MoveWhileOverflowing(p: nat, height: seq<Node> -> nat) returns (moved: bool)
      requires p + 1 < |units|
      modifies this`units
      ensures |units| == old(|units|)
      ensures forall i :: 0 <= i < |units| && i != p && i != p + 1 ==> units[i] == old(units)[i]
      ensures (units[p], units[p + 1]) == Settle(height, old(units)[p], old(units)[p + 1])
      ensures PageInk(units[p]) + PageInk(units[p + 1]) == PageInk(old(units)[p]) + PageInk(old(units)[p + 1])
      ensures !Overflowing(height, units[p]) || forall k :: 0 <= k < |units[p]| ==> IsSpacer(units[p][k])
      ensures moved ==> Weight(units[p]) < Weight(old(units)[p])
      ensures !moved ==> units == old(units)
    {
      moved := false;
      while Overflowing(height, units[p])
        invariant |units| == old(|units|)
        invariant forall i :: 0 <= i < |units| && i != p && i != p + 1 ==> units[i] == old(units)[i]
        invariant Settle(height, units[p], units[p + 1]) == Settle(height, old(units)[p], old(units)[p + 1])
        invariant moved ==> Weight(units[p]) < Weight(old(units)[p])
        invariant !moved ==> units == old(units)
        decreases Weight(units[p])
      {
        ghost var page, next := units[p], units[p + 1];
        var ok := MoveOneBlock(p);
        if !ok {
          break;
        }
        MoveOneShrinks(page, next);
        moved := true;
      }
      SettleKeepsInk(height, old(units)[p], old(units)[p + 1]);
    }

    /** `splitOverflow(pageIndex, depth)`. Gives up past the depth ceiling, when
        the page has no editor, or when it does not overflow. When the next
        page is missing it creates it and retries one level deeper. Otherwise
        it moves blocks forward while the page overflows and a move is
        possible, re-reads the page list from the editors if anything moved, and
        continues with the next page one level deeper. */
    method SplitOverflow(pageIndex: nat, depth: nat, height: seq<Node> -> nat)
      requires Valid()
      modifies this`pages, this`units
      ensures Valid()
      ensures depth > MaxDepth || pageIndex >= old(|units|) || !Overflowing(height, old(units)[pageIndex]) ==>
        pages == old(pages) && units == old(units)
      decreases MaxDepth + 1 - depth
    {
      if depth > MaxDepth {
        return;
      }
      if pageIndex >= |units| {
        return;
      }
      if !Overflowing(height, units[pageIndex]) {
        return;
      }
      if pageIndex + 1 >= |units| {
        pages := EnsureNextPage(pages, pageIndex);
        units := Rendered(units, pages, parse);
        SplitOverflow(pageIndex, depth + 1, height);
        return;
      }
      var moved := MoveWhileOverflowing(pageIndex, height);
      if moved {
        pages := SyncFromEditors(pages, units);
        units := Rendered(units, pages, parse);
      }
      SplitOverflow(pageIndex + 1, depth + 1, height);
    }
  }
}
