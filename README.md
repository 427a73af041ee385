# OpenWord pagination, modelled in Dafny

OpenWord is a word-processor-style editor built as a single React component.
A document is a list of pages. Each page record holds an `id`, a body
(`content`, HTML) and copies of one shared `header` and `footer`. Each page body
is shown in its own `contentEditable` editor. This project models the part of
the component that keeps that list paginated:

- **The page sequence** (`PageStore`). A document starts as one empty page.
  The structural updaters are the page break (insert after a target page, with
  an optional split of the target's body), "ensure a next page" and page
  deletion. The header or footer is broadcast to every page. Each updater
  renumbers ids densely from 1. The invariant `StoreValid` says the list is
  non-empty, ids are dense and every page carries page 1's header and footer.
  Every updater preserves it.
- **The empty-trailing-page trimmer** (`HtmlText`, `Trimmer`). A page is blank
  when its body, with `&nbsp;` entities, then `<br>` tags, then every other tag
  removed, trims to nothing. These are three left-to-right, non-overlapping
  replacements with JavaScript's exact white-space set and ASCII-only case
  folding. The trimmer scans back from the end past blank pages. It keeps a
  renumbered prefix of at least one page, and an empty list becomes one empty
  page. The backward loop is proved against the function `Trimmed`. That
  function is shown to be the unique such prefix, idempotent, and exactly
  characterised by its fixpoints.
- **The overflow resolver** (`Content`, `Paginator`). The editors' contents are
  lists of child nodes: text runs, or elements kept as their outer HTML.
  `MoveOne` is one `moveOneBlock` step:
  - skip trailing whitespace-only text nodes ("spacers");
  - a sole text run of at least 40 UTF-16 code units is split at 60% of its
    code units (JavaScript's `length`; a character outside the Basic
    Multilingual Plane counts twice), rounded down to a character boundary;
  - anything else is moved whole to the front of the next page.

  Each move strictly shrinks the page, which bounds the inner loop. Each move
  keeps the non-whitespace characters of the two pages in order. When the page
  does not end in a spacer, the two pages' HTML is kept exactly. Spacers behind
  a moved node stay where they are, so in general only whitespace can change
  place.

  `Engine.SplitOverflow` is the resolver. It gives up past depth 20, when the
  page has no editor, or when the page fits. If the next page is missing it
  creates one and retries one level deeper. Otherwise it runs the move loop,
  re-reads the page list from the editors when something moved, and cascades
  to the next page one level deeper. Termination is proved from the depth
  ceiling and the shrinking weight.
- **The cursor split** (`Content.CursorSplit`, `Engine.InsertPageBreak`). A
  page break cuts the target editor's child list at the cursor. The prefix
  stays, and the suffix becomes the body of the page inserted right after.

The rendered height of an editor (`scrollHeight`) is a parameter `height` over
a child list. A page overflows when its height exceeds 950 + 4.

Every deferred continuation (`setTimeout` after a state update) runs
synchronously after the re-render it waits for. `Rendered` models the
re-render:
- editors are keyed by page id, which is always the position plus one, so the
  editor at a position that still has a page keeps its children;
- editors past the end are unmounted;
- the loading effect fills each editor whose HTML is empty with its page's
  body, through the parameter `parse`.

A consequence of this keying, which the model reproduces
(`BreakKeepsMountedEditor`): after a page break every later page moves one
position on, but the editors stay where they are. An editor that shows text
keeps its children, so the new, empty page is displayed with the children of
the page it displaced, and so on down the document. Only the last page, which
had no editor, is loaded from its body.

## Model

| member | source | states |
|---|---|---|
| HtmlText.IsWhitespace | OpenWord-Text-Editor-main/OpenWord-Text-Editor-main/src/App.jsx:143 | the white-space set of `trim()` and `\s`: tab, line feed, vertical tab, form feed, carriage return, space, no-break space, the Unicode space separators, U+2028, U+2029 and the byte order mark (no contract; `Trim` and `PlainTextBlank` state what depends on it) |
| HtmlText.Trim | OpenWord-Text-Editor-main/OpenWord-Text-Editor-main/src/App.jsx:143 | `trim()` returns the slice between the leading and the trailing white space, both of which it removes entirely; the result is empty exactly when the input is all white space, and otherwise starts and ends with a character that is not white space |
| HtmlText.StripNbsp | OpenWord-Text-Editor-main/OpenWord-Text-Editor-main/src/App.jsx:140 | the `&nbsp;` pass only deletes: the result is never longer than the input |
| HtmlText.StripNbspDeletes | OpenWord-Text-Editor-main/OpenWord-Text-Editor-main/src/App.jsx:140 | the `&nbsp;` pass only deletes: its result is a subsequence of its input |
| HtmlText.StripNbspRemovesEntity | OpenWord-Text-Editor-main/OpenWord-Text-Editor-main/src/App.jsx:140 | an `&nbsp;` in any letter case, after text without `&`, is removed and the text around it passes through the pass as if it were not there |
| HtmlText.StripNbspPlain | OpenWord-Text-Editor-main/OpenWord-Text-Editor-main/src/App.jsx:140 | text without `&` passes the case-insensitive `&nbsp;` removal unchanged |
| HtmlText.BrMatch | OpenWord-Text-Editor-main/OpenWord-Text-Editor-main/src/App.jsx:141 | the match of `<br\s*\/?>` at the start of the text, case-insensitively: a length greater than 0 is a whole match (`<`, `br`, white space, an optional `/`, `>`), a whole match of any length is the one returned, and 0 means there is none |
| HtmlText.StripBr | OpenWord-Text-Editor-main/OpenWord-Text-Editor-main/src/App.jsx:141 | the `<br>` pass only deletes: the result is never longer than the input |
| HtmlText.StripBrDeletes | OpenWord-Text-Editor-main/OpenWord-Text-Editor-main/src/App.jsx:141 | the `<br>` pass only deletes: its result is a subsequence of its input |
| HtmlText.StripBrRemovesBreak | OpenWord-Text-Editor-main/OpenWord-Text-Editor-main/src/App.jsx:141 | a `<br/>` after text without `<` is removed and the text around it passes through as if it were not there |
| HtmlText.StripBrPlain | OpenWord-Text-Editor-main/OpenWord-Text-Editor-main/src/App.jsx:141 | text without `<` passes the `<br>` removal unchanged |
| HtmlText.StripTags | OpenWord-Text-Editor-main/OpenWord-Text-Editor-main/src/App.jsx:142 | the tag pass only deletes: the result is never longer than the input |
| HtmlText.StripTagsDeletes | OpenWord-Text-Editor-main/OpenWord-Text-Editor-main/src/App.jsx:142 | the tag pass only deletes: its result is a subsequence of its input |
| HtmlText.StripTagsRemovesTag | OpenWord-Text-Editor-main/OpenWord-Text-Editor-main/src/App.jsx:142 | a tag after text without `<` is removed whole, whatever it holds short of a `>`, and the text around it passes through as if it were not there |
| HtmlText.StripTagsPlain | OpenWord-Text-Editor-main/OpenWord-Text-Editor-main/src/App.jsx:142 | text without `<` passes the tag removal unchanged |
| HtmlText.StripTagsFromInput | OpenWord-Text-Editor-main/OpenWord-Text-Editor-main/src/App.jsx:142 | every character the tag pass leaves occurs in its input |
| HtmlText.StripTagsLeavesNoTag | OpenWord-Text-Editor-main/OpenWord-Text-Editor-main/src/App.jsx:142 | after the tag pass, no `<` is followed anywhere later by `>` |
| HtmlText.Stripped | OpenWord-Text-Editor-main/OpenWord-Text-Editor-main/src/App.jsx:139-142 | the three replacement passes in the source's order (no contract; each pass is characterised by its `Deletes`, `Removes` and `Plain` lemmas above) |
| HtmlText.IsBlank | OpenWord-Text-Editor-main/OpenWord-Text-Editor-main/src/App.jsx:137-144 | `cleaned.length === 0` (no contract; characterised by `BlankIffTrimEmpty`, `PlainTextBlank` and the concrete cases below) |
| HtmlText.BlankIffTrimEmpty | OpenWord-Text-Editor-main/OpenWord-Text-Editor-main/src/App.jsx:137-144 | a body is blank exactly when the trimmed result of the three passes has length 0 |
| HtmlText.PlainTextBlank | OpenWord-Text-Editor-main/OpenWord-Text-Editor-main/src/App.jsx:137-144 | for text without markup or entities, blank means white space only (both directions) |
| HtmlText.LineBreakIsBlank | OpenWord-Text-Editor-main/OpenWord-Text-Editor-main/src/App.jsx:139-144 | a body holding only `<BR/>` is blank |
| HtmlText.NbspIsBlank | OpenWord-Text-Editor-main/OpenWord-Text-Editor-main/src/App.jsx:139-144 | a body holding only `&NbSp;` is blank (the entity is matched case-insensitively) |
| HtmlText.TaggedTextIsNotBlank | OpenWord-Text-Editor-main/OpenWord-Text-Editor-main/src/App.jsx:139-144 | `<i>x</i>` is not blank: tags are removed, their text is not |
| PageStore.InitialPages | OpenWord-Text-Editor-main/OpenWord-Text-Editor-main/src/App.jsx:87-89 | the document starts as one page with empty body, header and footer, satisfying the page-sequence invariant |
| PageStore.Renumber | OpenWord-Text-Editor-main/OpenWord-Text-Editor-main/src/App.jsx:149-152 | same length, ids are positions plus one, every other field is unchanged, shared header and footer stay shared |
| PageStore.RenumberDense | OpenWord-Text-Editor-main/OpenWord-Text-Editor-main/src/App.jsx:149-152 | renumbering a densely numbered list is the identity |
| PageStore.Splice | OpenWord-Text-Editor-main/OpenWord-Text-Editor-main/src/App.jsx:610 | `splice(start, 0, p)` puts `p` at `min(start, length)` and shifts the rest by one |
| PageStore.InsertPageBreak | OpenWord-Text-Editor-main/OpenWord-Text-Editor-main/src/App.jsx:592-612 | one page longer; the new page sits right after the target (at the end when the target is past it) with the after-cursor body and page 1's header and footer (`""` for an empty list); the target gets the before-cursor body only when the split succeeded; every other page is kept in order; ids are dense; the invariant is preserved |
| PageStore.EnsureNextPage | OpenWord-Text-Editor-main/OpenWord-Text-Editor-main/src/App.jsx:823-835 | unchanged when a page follows `fromIndex`; otherwise exactly one empty page inheriting page 1's header and footer is appended and ids are renumbered; the invariant is preserved |
| PageStore.EnsureNextIsEmptyBreak | OpenWord-Text-Editor-main/OpenWord-Text-Editor-main/src/App.jsx:823-835 | creating the missing next page gives the same list as a page break that splits nothing |
| PageStore.RemoveAt | OpenWord-Text-Editor-main/OpenWord-Text-Editor-main/src/App.jsx:751 | `filter((_, i) => i !== index)`: one page shorter when `index` is a position, unchanged otherwise, the others in order |
| PageStore.DeletePage | OpenWord-Text-Editor-main/OpenWord-Text-Editor-main/src/App.jsx:749-759 | no-op on a one-page document; otherwise removes exactly the page at `index`, keeps the others in order with dense ids, clamps the current page to the new last page when it was at or past the new length; the invariant is preserved |
| PageStore.DeleteUndoesBreak | OpenWord-Text-Editor-main/OpenWord-Text-Editor-main/src/App.jsx:749-759 | deleting the page a non-splitting break has just inserted gives back the original document |
| PageStore.Broadcast | OpenWord-Text-Editor-main/OpenWord-Text-Editor-main/src/App.jsx:637-648 | every page gets the editor's HTML as header (or footer), with bodies, ids and the other region unchanged; the result shares header and footer when the other region was shared |
| Trimmer.LastKept | OpenWord-Text-Editor-main/OpenWord-Text-Editor-main/src/App.jsx:134-147 | the backward scan stops at the last non-blank page, or at page 1, and everything after it is blank |
| Trimmer.KeptCount | OpenWord-Text-Editor-main/OpenWord-Text-Editor-main/src/App.jsx:134-155 | a non-empty list keeps between 1 and all of its pages |
| Trimmer.Trimmed | OpenWord-Text-Editor-main/OpenWord-Text-Editor-main/src/App.jsx:131-156 | never empty and densely numbered; an empty list gives one empty page with id 1; otherwise a renumbered prefix of the input whose dropped pages are all blank and whose last page is page 1 or not blank |
| Trimmer.KeptCountUnique | OpenWord-Text-Editor-main/OpenWord-Text-Editor-main/src/App.jsx:134-147 | the kept prefix is the only one whose tail is blank and whose last page is page 1 or not blank |
| Trimmer.LastKeptSameBodies | OpenWord-Text-Editor-main/OpenWord-Text-Editor-main/src/App.jsx:134-147 | the backward scan reads only the bodies: two lists with the same bodies stop at the same page |
| Trimmer.TrimmedSameBodies | OpenWord-Text-Editor-main/OpenWord-Text-Editor-main/src/App.jsx:637-653 | trimming two lists with the same bodies keeps the same number of pages, so writing a header or footer never changes how many pages survive |
| Trimmer.TrimEmptyTrailingPages | OpenWord-Text-Editor-main/OpenWord-Text-Editor-main/src/App.jsx:131-156 | the backward loop and the slice compute `Trimmed`; the result is non-empty and densely numbered, and satisfies the invariant when header and footer were shared |
| Trimmer.TrimKeepsShared | OpenWord-Text-Editor-main/OpenWord-Text-Editor-main/src/App.jsx:149-155 | trimming a list with shared header and footer gives a list satisfying the invariant |
| Trimmer.TrimFixpoint | OpenWord-Text-Editor-main/OpenWord-Text-Editor-main/src/App.jsx:131-156 | trimming leaves a list unchanged exactly when it is non-empty, densely numbered and ends in a non-blank page or has one page |
| Trimmer.TrimIdempotent | OpenWord-Text-Editor-main/OpenWord-Text-Editor-main/src/App.jsx:131-156 | trimming a trimmed list returns it unchanged |
| Trimmer.OnlyFirstPageLeft | OpenWord-Text-Editor-main/OpenWord-Text-Editor-main/src/App.jsx:134-155 | when every page after the first is blank, only the first page is left |
| Trimmer.TrimKeepsText | OpenWord-Text-Editor-main/OpenWord-Text-Editor-main/src/App.jsx:134-147 | a page that is not blank is never dropped and keeps its position and body |
| Content.Serialize | OpenWord-Text-Editor-main/OpenWord-Text-Editor-main/src/App.jsx:582 | `innerHTML` of an element holding these children, also read at lines 651 and 732 (no contract; `SerializeAppend` states that it reads the children in order) |
| Content.SerializeAppend | OpenWord-Text-Editor-main/OpenWord-Text-Editor-main/src/App.jsx:732 | the HTML of two child lists read in order is the HTML of their concatenation |
| Content.IsSpacer | OpenWord-Text-Editor-main/OpenWord-Text-Editor-main/src/App.jsx:689 | a text node whose text trims to nothing, which the backward walk skips (no contract; `LastVisible` and `MoveOneTakesLastVisible` state how it is used) |
| Content.LastVisible | OpenWord-Text-Editor-main/OpenWord-Text-Editor-main/src/App.jsx:687-692 | the node `moveOneBlock` settles on is the last node that is not a spacer; everything after it is a spacer; -1 when there is none |
| Content.SkipSpacers | OpenWord-Text-Editor-main/OpenWord-Text-Editor-main/src/App.jsx:687-691 | the backward walk from the last child past spacers stops exactly at the node `LastVisible` names, or at -1 when every child is a spacer |
| Content.Utf16Length | OpenWord-Text-Editor-main/OpenWord-Text-Editor-main/src/App.jsx:696-697 | `fullText.length` counts UTF-16 code units: between one and two per character |
| Content.CharIndex | OpenWord-Text-Editor-main/OpenWord-Text-Editor-main/src/App.jsx:703-705 | the number of whole characters within the first `u` code units: their code units fit in `u`, the next character does not, and a cut inside the text lands on a character of the text |
| Content.SplitPoint | OpenWord-Text-Editor-main/OpenWord-Text-Editor-main/src/App.jsx:703 | `Math.floor(len * 0.6)`: the largest `k` with `5k <= 3 len`; for a length of at least 40 code units the cut leaves at least 2 units before it and at least one after it |
| Content.TextSplitIndex | OpenWord-Text-Editor-main/OpenWord-Text-Editor-main/src/App.jsx:703-705 | where `slice(0, splitIndex)` cuts a text run of at least 40 code units: both parts are non-empty and the cut is the last character boundary at or before 60% of the code units |
| Content.MoveOne | OpenWord-Text-Editor-main/OpenWord-Text-Editor-main/src/App.jsx:686-716 | nothing moves exactly when the page holds only spacers; a move puts exactly one node in front of the next page's unchanged children (the 40-unit threshold and the 60% cut are counted in UTF-16 code units) |
| Content.MoveOneShrinks | OpenWord-Text-Editor-main/OpenWord-Text-Editor-main/src/App.jsx:686-723 | every move makes the page strictly lighter, so the `while (isOverflowing())` loop ends |
| Content.MoveOneKeepsText | OpenWord-Text-Editor-main/OpenWord-Text-Editor-main/src/App.jsx:686-716 | for a page not ending in a spacer, the two pages' HTML read in order is unchanged by a move or a split |
| Content.SplitKeepsText | OpenWord-Text-Editor-main/OpenWord-Text-Editor-main/src/App.jsx:696-711 | the two halves of a split text run, read in order in front of the next page, give back the run and the next page |
| Content.MoveOneKeepsVisibleOrder | OpenWord-Text-Editor-main/OpenWord-Text-Editor-main/src/App.jsx:686-716 | a move that does not split keeps the non-spacer nodes of the two pages in the same order |
| Content.MoveOneKeepsNodes | OpenWord-Text-Editor-main/OpenWord-Text-Editor-main/src/App.jsx:686-716 | a move that does not split neither loses nor duplicates a node: the two pages hold the same multiset of nodes, spacers included, before and after |
| Content.MoveOneTakesLastVisible | OpenWord-Text-Editor-main/OpenWord-Text-Editor-main/src/App.jsx:687-714 | a whole-node move takes the last node that is not a spacer and no other: it goes to the front of the next page, the page keeps every other node in order, and the spacers after the moved node stay at the end of the page |
| Content.MoveOutMarkup | OpenWord-Text-Editor-main/OpenWord-Text-Editor-main/src/App.jsx:714 | taking a node out from between two runs of children and putting it in front of the next page moves its markup and nothing else: read in order, the two pages' HTML is the page's HTML without that markup, followed by it and the next page's HTML |
| Content.MoveOneKeepsInk | OpenWord-Text-Editor-main/OpenWord-Text-Editor-main/src/App.jsx:686-716 | every move, including a split, keeps the non-whitespace characters of the two pages in order |
| Content.WholeMoveKeepsInk | OpenWord-Text-Editor-main/OpenWord-Text-Editor-main/src/App.jsx:714 | moving a node out from before a run of spacers to the front of the next page keeps the non-whitespace characters in order |
| Content.LongTextSplitsAtSixtyPercent | OpenWord-Text-Editor-main/OpenWord-Text-Editor-main/src/App.jsx:703-709 | a lone text run of 1000 characters from the Basic Multilingual Plane keeps its first 600 characters and sends the last 400 to the front of the next page |
| Content.ShortTextMovesWhole | OpenWord-Text-Editor-main/OpenWord-Text-Editor-main/src/App.jsx:697-700 | a lone text run of 30 characters from the Basic Multilingual Plane is moved whole |
| Content.AstralTextSplitsByCodeUnits | OpenWord-Text-Editor-main/OpenWord-Text-Editor-main/src/App.jsx:696-709 | a lone run of 30 characters outside the Basic Multilingual Plane is 60 code units long, so it is split, not moved whole: 18 characters stay and 12 move |
| Content.CursorSplit | OpenWord-Text-Editor-main/OpenWord-Text-Editor-main/src/App.jsx:570-583 | the part before the cursor and the extracted part after it concatenate to the original children, and the cut is at the cursor |
| Content.CursorSplitKeepsText | OpenWord-Text-Editor-main/OpenWord-Text-Editor-main/src/App.jsx:570-583 | the before-cursor HTML followed by the extracted HTML is the page's HTML before the split |
| Paginator.Overflowing | OpenWord-Text-Editor-main/OpenWord-Text-Editor-main/src/App.jsx:670 | `scrollHeight > CONTENT_MAX_HEIGHT + 4`, with the height measured by the parameter `height` (no contract; `Settle` and `MoveWhileOverflowing` state what depends on it) |
| Paginator.Settle | OpenWord-Text-Editor-main/OpenWord-Text-Editor-main/src/App.jsx:718-723 | what the inner loop leaves: it stops at the first state where the page fits or nothing can move, so afterwards the page fits or holds only spacers, and it never gets heavier |
| Paginator.SettleKeepsInk | OpenWord-Text-Editor-main/OpenWord-Text-Editor-main/src/App.jsx:718-723 | the inner loop keeps the non-whitespace characters of the two pages, read in order |
| Paginator.Resynced | OpenWord-Text-Editor-main/OpenWord-Text-Editor-main/src/App.jsx:727-737 | the re-read list has the old length, dense ids and page 1's header and footer everywhere |
| Paginator.SyncFromEditors | OpenWord-Text-Editor-main/OpenWord-Text-Editor-main/src/App.jsx:725-740 | the post-move sync always yields a list satisfying the invariant |
| Paginator.SyncShape | OpenWord-Text-Editor-main/OpenWord-Text-Editor-main/src/App.jsx:725-740 | after the sync each kept page holds its editor's HTML, its position plus one as id, and page 1's header and footer; a page is dropped only when its editor's HTML is blank |
| Paginator.Loaded | OpenWord-Text-Editor-main/OpenWord-Text-Editor-main/src/App.jsx:203-207 | the loading effect writes the page body into an editor with empty HTML; an empty body leaves the editor empty (no contract; `Rendered` and `BreakKeepsMountedEditor` state where it applies) |
| Paginator.Rendered | OpenWord-Text-Editor-main/OpenWord-Text-Editor-main/src/App.jsx:1203-1219 | React renders exactly one page editor per page |
| Paginator.BreakKeepsMountedEditor | OpenWord-Text-Editor-main/OpenWord-Text-Editor-main/src/App.jsx:203-207 | after a break following page `t`, the new page is empty and every later page moves one position on, but each editor behind page `t` that shows text stays at its position and keeps its children; only the last page, which had no editor, is loaded afresh |
| Paginator.Engine.constructor | OpenWord-Text-Editor-main/OpenWord-Text-Editor-main/src/App.jsx:87-92 | one empty page, current page 0, one empty editor; the loading parser and the empty editor's outer HTML are those given |
| Paginator.Engine.UpdatePages | OpenWord-Text-Editor-main/OpenWord-Text-Editor-main/src/App.jsx:626-660 | keeps the invariant; body mode without an editor changes nothing; otherwise it does what `SaveBody` or `SaveRegion` states, by mode |
| Paginator.Engine.SaveBody | OpenWord-Text-Editor-main/OpenWord-Text-Editor-main/src/App.jsx:649-659 | keeps the invariant; when the edited page fits once the list is saved, trimmed and rendered, the result is exactly that saved, trimmed list and its rendering |
| Paginator.Engine.SaveRegion | OpenWord-Text-Editor-main/OpenWord-Text-Editor-main/src/App.jsx:637-654 | keeps the invariant; keeps as many pages as trimming the old list would; writes the HTML to that region of every kept page and leaves bodies and the other region alone; renders the page editors afresh |
| Paginator.Engine.InsertPageBreak | OpenWord-Text-Editor-main/OpenWord-Text-Editor-main/src/App.jsx:558-612 | keeps the invariant; the new list is the page-break updater applied to the cursor split of the target editor, when the cursor lies in it, and to no split otherwise; the new page's body is the extracted HTML, or the empty editor element's own outer HTML when the editor had no children; the target editor keeps only the before-cursor children |
| Paginator.Engine.DeletePage | OpenWord-Text-Editor-main/OpenWord-Text-Editor-main/src/App.jsx:749-759 | keeps the invariant; pages and current page are those of the delete updater |
| Paginator.Engine.MoveOneBlock | OpenWord-Text-Editor-main/OpenWord-Text-Editor-main/src/App.jsx:686-716 | the spacer-skipping loop and the in-place moves on the two editors do exactly what `MoveOne` says, and report whether anything moved |
| Paginator.Engine.MoveWhileOverflowing | OpenWord-Text-Editor-main/OpenWord-Text-Editor-main/src/App.jsx:718-723 | the loop leaves the two editors exactly as `Settle` says, so it stops as soon as the page fits or `moveOneBlock` fails and not one step later; afterwards the page fits or holds only spacers; only the two editors change; their non-whitespace characters are kept in order; the page got strictly lighter when something moved and nothing changed otherwise |
| Paginator.Engine.SplitOverflow | OpenWord-Text-Editor-main/OpenWord-Text-Editor-main/src/App.jsx:663-744 | terminates (depth ceiling 20 and shrinking pages), keeps the invariant, and changes nothing past the depth ceiling, for a page without an editor, or for a page that fits |

## Left out

- Paginator.Engine.SaveBody: when the saved page still overflows after trimming, the contract gives only the invariant; what follows is the resolver's, whose contract is described on the `Paginator.Engine.SplitOverflow` line below.
- Paginator.Engine.UpdatePages: in body mode it states what `SaveBody` states, so the same case is left open.
- Paginator.Engine.SplitOverflow: the contract does not describe the state after a cascade that moved content. It only gives the invariant, the no-op cases and termination. What each single step does is stated by `MoveWhileOverflowing`, `SyncShape` and `EnsureNextPage`.
- Paginator.Rendered: the contract states only that there is one editor per page. What each editor shows is its definition, stated in the description above.
- Content.TextSplitIndex: a cut that falls between the two code units of a surrogate pair leaves a lone surrogate at the end of one part and the start of the other in the component. Strings here are sequences of whole characters, so the model rounds such a cut down to the character boundary before it.
- Content.SplitPoint: `Math.floor(len * 0.6)` is computed in floating point. The model uses the exact value `(3 * len) / 5`. This assumes the product rounds to a value whose floor is the exact one.
- Content.CursorSplit: an editor with no children is split in the component by a range ending after the editor element, which extracts an empty copy of that element. The model takes that copy's outer HTML as the parameter `emptyEditorShell` of `Engine`. The cursor is a position between top-level children of the editor. A caret inside a text node or a nested element, which `extractContents` would split, is not modelled. Nor is a failure inside the `try`, which the model treats as "no selection in this editor".
- Serialising: a text node contributes its raw text. The escaping of `&`, `<`, `>` and U+00A0 that `innerHTML` performs is not modelled.
- Element nodes are never split; only a sole text run is. The model keeps an element as its outer HTML.
- Rendered height: `scrollHeight` depends on layout and fonts. It is the parameter `height`.
- Timers and concurrency: every `setTimeout` continuation runs at once, after the re-render it waits for. User input arriving between a state update and its continuation is not modelled. Neither is the focus moving to the new page after a break.
- Aliasing: `updatePages` writes the new header, footer or body into the page objects of the previous state before replacing the list. The model builds new values, so it cannot observe that sharing.
- `updatePages` called without an index falls back to the current page. The model always takes the index explicitly. In header or footer mode it assumes the header/footer editor is mounted. Loading that editor from page 1 when the mode is entered, and switching modes, are not modelled. The current page is changed only by deletion here; focusing an editor also sets it in the component.
- Storage: saving to `localStorage`, loading from it (which trims), importing a JSON file (which does not), and resetting the document are I/O and are not modelled.
- The keyboard handlers (including the Enter-near-the-bottom page break, which depends on pixel geometry), formatting commands, pickers, the floating toolbar and the JSX layout are user interface and are not modelled.
