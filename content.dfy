/** A page editor's content as the pagination logic sees it: an ordered list of
    child nodes, each a text run or an element kept as its outer HTML. This
    module holds the value-level operations on such lists: serialising them,
    finding the last node worth moving, the one-step move of the overflow
    resolver, and the cursor split of a page break. */
module Content {
  import opened HtmlText

  datatype Node = Text(text: string) | Element(markup: string)

  /** The HTML a node contributes to its parent's `innerHTML`. */
  function Markup(n: Node): string {
    match n
    case Text(t) => t
    case Element(m) => m
  }

  /** `innerHTML` of an editor holding `nodes`. */
  function Serialize(nodes: seq<Node>): string {
    if nodes == [] then "" else Markup(nodes[0]) + Serialize(nodes[1..])
  }

  /** Serialising is a homomorphism from node lists to strings. */
  lemma {:induction false} SerializeAppend(a: seq<Node>, b: seq<Node>)
    ensures Serialize(a + b) == Serialize(a) + Serialize(b)
  {
    if a == [] {
      assert a + b == b;
    } else {
      assert (a + b)[1..] == a[1..] + b;
      SerializeAppend(a[1..], b);
    }
  }

  lemma SerializeCons(n: Node, rest: seq<Node>)
    ensures Serialize([n] + rest) == Markup(n) + Serialize(rest)
  {
    assert ([n] + rest)[1..] == rest;
  }

  /** A text node whose `textContent.trim()` is empty: skipped when looking for
      the node to move. */
  predicate IsSpacer(n: Node) {
    n.Text? && AllWhitespace(n.text)
  }

  /** The index `moveOneBlock` settles on: the last node that is not a spacer,
      or -1 when every node is one. */
  function LastVisible(nodes: seq<Node>): (j: int)
    ensures -1 <= j < |nodes|
    ensures j >= 0 ==> !IsSpacer(nodes[j])
    ensures forall k :: j < k < |nodes| ==> IsSpacer(nodes[k])
  {
    if nodes == [] then -1
    else if !IsSpacer(nodes[|nodes| - 1]) then |nodes| - 1
    else LastVisible(nodes[..|nodes| - 1])
  }

  /** Code units a character takes in UTF-16, the unit JavaScript string
      lengths and indices count: two for a character outside the Basic
      Multilingual Plane (a surrogate pair), one otherwise. */
  function Utf16Width(c: char): nat {
    if c as int >= 0x1_0000 then 2 else 1
  }

  /** `s.length` in JavaScript. */
  function Utf16Length(s: string): (n: nat)
    ensures |s| <= n <= 2 * |s|
  {
    if s == [] then 0 else Utf16Width(s[0]) + Utf16Length(s[1..])
  }

  /** The number of whole characters that fit in the first `u` code units of
      `s`: the character index of code-unit offset `u`, rounded down to a
      character boundary when `u` falls between the two halves of a pair. */
  function CharIndex(s: string, u: nat): (i: nat)
    ensures i <= |s| && Utf16Length(s[..i]) <= u
    ensures i < |s| ==> u < Utf16Length(s[..i]) + Utf16Width(s[i])
    ensures u < Utf16Length(s) ==> i < |s|
    ensures s != [] && u >= 2 ==> i > 0
  {
    if s == [] || Utf16Width(s[0]) > u then
      assert s[..0] == [];
      0
    else
      var i' := CharIndex(s[1..], u - Utf16Width(s[0]));
      assert s[..i' + 1][1..] == s[1..][..i'];
      i' + 1
  }

  /** Text runs shorter than this many code units are moved whole instead of
      being split. */
  const MinSplitLength: nat := 40

  /** `Math.floor(len * 0.6)`, computed exactly as `(3 * len) / 5`: the largest
      `k` with `5 * k <= 3 * len`. For a text long enough to split, both halves
      are non-empty. */
  function SplitPoint(len: nat): (k: nat)
    ensures 5 * k <= 3 * len < 5 * (k + 1)
    ensures len >= MinSplitLength ==> 2 <= k < len
  {
    (3 * len) / 5
  }

  /** Where a long text run is cut: the character index of 60% of its UTF-16
      length. Both parts are non-empty. */
  function TextSplitIndex(t: string): (k: nat)
    requires Utf16Length(t) >= MinSplitLength
    ensures 0 < k < |t|
    ensures Utf16Length(t[..k]) <= SplitPoint(Utf16Length(t)) < Utf16Length(t[..k]) + Utf16Width(t[k])
  {
    CharIndex(t, SplitPoint(Utf16Length(t)))
  }

  /** The outcome of one `moveOneBlock` call on a page and the page after it. */
  datatype Step = Stuck | Moved(page: seq<Node>, next: seq<Node>)

  /** What `moveOneBlock` does to the child lists of page `p` and page `p + 1`:
      nothing when only spacers are left; the split of a sole text run of at
      least 40 code units, keeping the characters within the first 60% of its
      code units and putting the rest in front of the next page; otherwise the
      last non-spacer node moved whole to the front of the next page (spacers
      after it stay where they are). */
  function MoveOne(page: seq<Node>, next: seq<Node>): (s: Step)
    ensures s.Stuck? <==> forall k :: 0 <= k < |page| ==> IsSpacer(page[k])
    ensures s.Moved? ==> |s.next| == |next| + 1 && s.next[1..] == next
  {
    var j := LastVisible(page);
    if j < 0 then Stuck
    else if page[j].Text? && |page| == 1 then
      var t := page[j].text;
      if Utf16Length(t) < MinSplitLength then Moved([], [page[j]] + next)
      else
        var k := TextSplitIndex(t);
        Moved([Text(t[..k])], [Text(t[k..])] + next)
    else
      Moved(page[..j] + page[j + 1..], [page[j]] + next)
  }

  /** The walk back from the last child of `moveOneBlock`: past every
      spacer, to the node it settles on, or to -1 when none is left. */
  method SkipSpacers(page: seq<Node>) returns (j: int)
    ensures j == LastVisible(page)
  {
    j := |page| - 1;
    while j >= 0 && IsSpacer(page[j])
      invariant -1 <= j < |page|
      invariant LastVisible(page) == LastVisible(page[..j + 1])
    {
      assert page[..j + 1][..j] == page[..j];
      j := j - 1;
    }
    if j >= 0 {
      assert page[..j + 1][..j + 1][j] == page[j];
    }
  }

  /** The three outcomes of `MoveOne` once a node to move has been found. */
  lemma MoveOneCases(page: seq<Node>, next: seq<Node>)
    requires LastVisible(page) >= 0
    ensures var j := LastVisible(page);
      && (page[j].Text? && |page| == 1 && Utf16Length(page[j].text) < MinSplitLength ==>
            MoveOne(page, next) == Moved([], [page[j]] + next))
      && (page[j].Text? && |page| == 1 && Utf16Length(page[j].text) >= MinSplitLength ==>
            var k := TextSplitIndex(page[j].text);
            MoveOne(page, next) == Moved([Text(page[j].text[..k])], [Text(page[j].text[k..])] + next))
      && (!(page[j].Text? && |page| == 1) ==>
            MoveOne(page, next) == Moved(page[..j] + page[j + 1..], [page[j]] + next))
  {
  }

  /** True when `MoveOne` splits a sole text run rather than moving a node. */
  predicate SplitsText(page: seq<Node>) {
    |page| == 1 && page[0].Text? && !IsSpacer(page[0]) && Utf16Length(page[0].text) >= MinSplitLength
  }

  /** The size a move strictly reduces: one per node plus one per character of
      text. */
  function Weight(nodes: seq<Node>): nat {
    if nodes == [] then 0
    else 1 + (if nodes[0].Text? then |nodes[0].text| else 0) + Weight(nodes[1..])
  }

  lemma {:induction false} WeightAppend(a: seq<Node>, b: seq<Node>)
    ensures Weight(a + b) == Weight(a) + Weight(b)
  {
    if a == [] {
      assert a + b == b;
    } else {
      assert (a + b)[1..] == a[1..] + b;
      WeightAppend(a[1..], b);
    }
  }

  /** Every move makes page `p` strictly smaller, which bounds the resolver's
      inner loop. */
  lemma {:induction false} MoveOneShrinks(page: seq<Node>, next: seq<Node>)
    requires MoveOne(page, next).Moved?
    ensures Weight(MoveOne(page, next).page) < Weight(page)
  {
    var j := LastVisible(page);
    if page[j].Text? && |page| == 1 {
    } else {
      assert page == page[..j] + [page[j]] + page[j + 1..];
      WeightAppend(page[..j] + [page[j]], page[j + 1..]);
      WeightAppend(page[..j], [page[j]]);
      WeightAppend(page[..j], page[j + 1..]);
    }
  }

  /** When page `p` does not end in a spacer, a move keeps the HTML of the two
      pages read in order: no character is lost, duplicated or reordered, for
      whole-node moves and text splits alike. */
  lemma {:induction false} MoveOneKeepsText(page: seq<Node>, next: seq<Node>)
    requires page == [] || !IsSpacer(page[|page| - 1])
    requires MoveOne(page, next).Moved?
    ensures var s := MoveOne(page, next);
      Serialize(s.page) + Serialize(s.next) == Serialize(page) + Serialize(next)
  {
    var j := LastVisible(page);
    assert j == |page| - 1;
    MoveOneCases(page, next);
    if SplitsText(page) {
      SplitKeepsText(page[0].text, next);
    } else {
      if page[j].Text? && |page| == 1 {
        assert j == 0 && Utf16Length(page[j].text) < MinSplitLength;
      }
      assert page[j + 1..] == [];
      assert MoveOne(page, next) == Moved(page[..j], [page[j]] + next);
      assert page == page[..j] + [page[j]];
      SerializeAppend(page[..j], [page[j]]);
      SerializeAppend([page[j]], next);
    }
  }

  lemma SplitKeepsText(t: string, next: seq<Node>)
    requires Utf16Length(t) >= MinSplitLength
    ensures var k := TextSplitIndex(t);
      Serialize([Text(t[..k])]) + Serialize([Text(t[k..])] + next) == Serialize([Text(t)]) + Serialize(next)
  {
    var k := TextSplitIndex(t);
    assert t[..k] + t[k..] == t;
    SerializeAppend([Text(t[k..])], next);
  }

  /** The nodes that are not spacers, in order. */
  function Visible(nodes: seq<Node>): seq<Node> {
    if nodes == [] then []
    else (if IsSpacer(nodes[0]) then [] else [nodes[0]]) + Visible(nodes[1..])
  }

  lemma {:induction false} VisibleAppend(a: seq<Node>, b: seq<Node>)
    ensures Visible(a + b) == Visible(a) + Visible(b)
  {
    if a == [] {
      assert a + b == b;
    } else {
      assert (a + b)[1..] == a[1..] + b;
      VisibleAppend(a[1..], b);
    }
  }

  lemma {:induction false} VisibleOfSpacers(nodes: seq<Node>)
    requires forall k :: 0 <= k < |nodes| ==> IsSpacer(nodes[k])
    ensures Visible(nodes) == []
  {
    if nodes != [] {
      VisibleOfSpacers(nodes[1..]);
    }
  }

  /** A whole-node move keeps the order of the non-spacer nodes of the two
      pages read in sequence; only spacers that followed the moved node change
      place (they stay behind on page `p`). */
  lemma {:induction false} MoveOneKeepsVisibleOrder(page: seq<Node>, next: seq<Node>)
    requires MoveOne(page, next).Moved? && !SplitsText(page)
    ensures var s := MoveOne(page, next);
      Visible(s.page + s.next) == Visible(page + next)
  {
    var s := MoveOne(page, next);
    var j := LastVisible(page);
    var tail := page[j + 1..];
    VisibleOfSpacers(tail);
    if page[j].Text? && |page| == 1 {
      assert s.page + s.next == page + next;
    } else {
      assert s.page == page[..j] + tail;
      assert page == page[..j] + [page[j]] + tail;
      VisibleAppend(page[..j], tail);
      VisibleAppend(page[..j] + [page[j]], tail);
      VisibleAppend(page[..j], [page[j]]);
      VisibleAppend(s.page, s.next);
      VisibleAppend(page, next);
      VisibleAppend([page[j]], next);
      assert s.page + s.next == s.page + ([page[j]] + next);
    }
  }

  /** The characters of `s` that are not whitespace, in order. */
  function Ink(s: string): (r: string)
    ensures |r| <= |s|
    ensures forall k :: 0 <= k < |r| ==> !IsWhitespace(r[k])
  {
    if s == [] then [] else (if IsWhitespace(s[0]) then [] else [s[0]]) + Ink(s[1..])
  }

  lemma {:induction false} InkAppend(a: string, b: string)
    ensures Ink(a + b) == Ink(a) + Ink(b)
  {
    if a == [] {
      assert a + b == b;
    } else {
      assert (a + b)[1..] == a[1..] + b;
      InkAppend(a[1..], b);
    }
  }

  /** The non-whitespace characters of an editor's HTML. */
  function PageInk(nodes: seq<Node>): string {
    Ink(Serialize(nodes))
  }

  lemma PageInkAppend(a: seq<Node>, b: seq<Node>)
    ensures PageInk(a + b) == PageInk(a) + PageInk(b)
  {
    SerializeAppend(a, b);
    InkAppend(Serialize(a), Serialize(b));
  }

  /** Spacers carry no ink. */
  lemma {:induction false} PageInkOfSpacers(nodes: seq<Node>)
    requires forall k :: 0 <= k < |nodes| ==> IsSpacer(nodes[k])
    ensures PageInk(nodes) == []
  {
    if nodes != [] {
      var t := nodes[0].text;
      assert Serialize([nodes[0]]) == t;
      InkOfWhitespace(t);
      assert nodes == [nodes[0]] + nodes[1..];
      PageInkAppend([nodes[0]], nodes[1..]);
      PageInkOfSpacers(nodes[1..]);
    }
  }

  lemma {:induction false} InkOfWhitespace(s: string)
    requires AllWhitespace(s)
    ensures Ink(s) == []
  {
    if s != [] {
      InkOfWhitespace(s[1..]);
    }
  }

  /** Every move, whole-node or split, with or without spacers behind the moved
      node, keeps the non-whitespace characters of the two pages read in order:
      only whitespace can change place. */
  lemma {:induction false} MoveOneKeepsInk(page: seq<Node>, next: seq<Node>)
    requires MoveOne(page, next).Moved?
    ensures var s := MoveOne(page, next);
      PageInk(s.page) + PageInk(s.next) == PageInk(page) + PageInk(next)
  {
    var j := LastVisible(page);
    if SplitsText(page) {
      SplitKeepsText(page[0].text, next);
      var s := MoveOne(page, next);
      InkAppend(Serialize(s.page), Serialize(s.next));
      InkAppend(Serialize(page), Serialize(next));
    } else {
      assert page == page[..j] + [page[j]] + page[j + 1..];
      WholeMoveKeepsInk(page[..j], page[j], page[j + 1..], next);
    }
  }

  /** Moving `x` out from between `pre` and a run of spacers to the front of
      the next page. */
  lemma WholeMoveKeepsInk(pre: seq<Node>, x: Node, tail: seq<Node>, next: seq<Node>)
    requires forall k :: 0 <= k < |tail| ==> IsSpacer(tail[k])
    ensures PageInk(pre + tail) + PageInk([x] + next) == PageInk(pre + [x] + tail) + PageInk(next)
  {
    PageInkOfSpacers(tail);
    PageInkAppend(pre, tail);
    PageInkAppend([x], next);
    PageInkAppend(pre + [x], tail);
    PageInkAppend(pre, [x]);
  }

  /** A whole-node move neither loses nor duplicates a node: the nodes of the
      two pages, spacers included, are the same before and after. */
  lemma MoveOneKeepsNodes(page: seq<Node>, next: seq<Node>)
    requires MoveOne(page, next).Moved? && !SplitsText(page)
    ensures var s := MoveOne(page, next);
      multiset(s.page + s.next) == multiset(page + next)
  {
    var j := LastVisible(page);
    var s := MoveOne(page, next);
    assert s == Moved(page[..j] + page[j + 1..], [page[j]] + next);
    assert page == page[..j] + [page[j]] + page[j + 1..];
    calc {
      multiset(s.page + s.next);
      multiset(page[..j]) + multiset(page[j + 1..]) + multiset([page[j]]) + multiset(next);
      multiset(page[..j] + [page[j]] + page[j + 1..]) + multiset(next);
      multiset(page + next);
    }
  }

  /** A whole-node move takes the last node that is not a spacer: that node,
      and no other, goes to the front of the next page, and the spacers after
      it stay at the end of the page. (`MoveOutMarkup` then gives the two
      pages' HTML.) */
  lemma MoveOneTakesLastVisible(page: seq<Node>, next: seq<Node>)
    requires MoveOne(page, next).Moved? && !SplitsText(page)
    ensures var s, j := MoveOne(page, next), LastVisible(page);
      && 0 <= j < |page| && !IsSpacer(page[j])
      && s.next == [page[j]] + next
      && s.page == page[..j] + page[j + 1..]
      && (forall k :: j <= k < |s.page| ==> IsSpacer(s.page[k]))
  {
    var j := LastVisible(page);
    var s := MoveOne(page, next);
    MoveOneCases(page, next);
    if page[j].Text? && |page| == 1 {
      assert j == 0 && Utf16Length(page[j].text) < MinSplitLength;
      assert page[..j] + page[j + 1..] == [];
    }
    assert s == Moved(page[..j] + page[j + 1..], [page[j]] + next);
    forall k | j <= k < |s.page| ensures IsSpacer(s.page[k]) {
      assert s.page[k] == page[k + 1];
    }
  }

  /** Taking `x` out from between `pre` and `post` and putting it in front of
      `next` moves its markup and nothing else. */
  lemma MoveOutMarkup(pre: seq<Node>, x: Node, post: seq<Node>, next: seq<Node>)
    ensures Serialize(pre + post) + Serialize([x] + next)
         == Serialize(pre) + Serialize(post) + Markup(x) + Serialize(next)
  {
    SerializeAppend(pre, post);
    SerializeCons(x, next);
  }

  /** Characters of the Basic Multilingual Plane only. */
  predicate InBmp(s: string) {
    forall i :: 0 <= i < |s| ==> s[i] as int < 0x1_0000
  }

  /** Characters outside the Basic Multilingual Plane only. */
  predicate Astral(s: string) {
    forall i :: 0 <= i < |s| ==> s[i] as int >= 0x1_0000
  }

  /** In the Basic Multilingual Plane, code units and characters coincide. */
  lemma {:induction false} BmpLength(s: string)
    requires InBmp(s)
    ensures Utf16Length(s) == |s|
  {
    if s != [] {
      BmpLength(s[1..]);
    }
  }

  lemma {:induction false} BmpCharIndex(s: string, u: nat)
    requires InBmp(s) && u <= |s|
    ensures CharIndex(s, u) == u
  {
    if u > 0 {
      BmpCharIndex(s[1..], u - 1);
    }
  }

  /** Outside it, every character is two code units. */
  lemma {:induction false} AstralLength(s: string)
    requires Astral(s)
    ensures Utf16Length(s) == 2 * |s|
  {
    if s != [] {
      AstralLength(s[1..]);
    }
  }

  lemma {:induction false} AstralCharIndex(s: string, u: nat)
    requires Astral(s) && u <= 2 * |s|
    ensures CharIndex(s, u) == u / 2
  {
    if u >= 2 {
      AstralCharIndex(s[1..], u - 2);
    }
  }

  /** A lone text run of 1000 Basic Multilingual Plane characters keeps its
      first 600 characters and sends the last 400 to the front of the next
      page. */
  lemma LongTextSplitsAtSixtyPercent(t: string, next: seq<Node>)
    requires |t| == 1000 && InBmp(t) && !AllWhitespace(t)
    ensures MoveOne([Text(t)], next) == Moved([Text(t[..600])], [Text(t[600..])] + next)
  {
    BmpLength(t);
    BmpCharIndex(t, 600);
  }

  /** A lone text run of 30 Basic Multilingual Plane characters is moved
      whole. */
  lemma ShortTextMovesWhole(t: string, next: seq<Node>)
    requires |t| == 30 && InBmp(t) && !AllWhitespace(t)
    ensures MoveOne([Text(t)], next) == Moved([], [Text(t)] + next)
  {
    BmpLength(t);
  }

  /** A lone run of 30 characters outside the Basic Multilingual Plane (emoji,
      say) is 60 code units long, so it is split, not moved whole: the cut at
      code unit 36 keeps 18 characters and moves 12. */
  lemma AstralTextSplitsByCodeUnits(t: string, next: seq<Node>)
    requires |t| == 30 && Astral(t)
    ensures MoveOne([Text(t)], next) == Moved([Text(t[..18])], [Text(t[18..])] + next)
  {
    AstralLength(t);
    AstralCharIndex(t, 36);
    assert !IsWhitespace(t[0]);
  }

  /** The part of a content list before and after a cursor position: `before`
      stays on the page, `after` is extracted to become a new page. */
  function CursorSplit(nodes: seq<Node>, cursor: nat): (r: (seq<Node>, seq<Node>))
    requires cursor <= |nodes|
    ensures r.0 + r.1 == nodes && |r.0| == cursor
  {
    (nodes[..cursor], nodes[cursor..])
  }

  /** The HTML of the two halves of a cursor split, read in order, is the
      page's HTML before the split. */
  lemma CursorSplitKeepsText(nodes: seq<Node>, cursor: nat)
    requires cursor <= |nodes|
    ensures var r := CursorSplit(nodes, cursor); Serialize(r.0) + Serialize(r.1) == Serialize(nodes)
  {
    var r := CursorSplit(nodes, cursor);
    SerializeAppend(r.0, r.1);
  }
}
