/** The empty-trailing-page trimmer: drops the blank pages at the end of the
    document, keeping at least the first page, and renumbers ids. */
module Trimmer {
  import opened HtmlText
  import opened PageStore

  /** Where the backward scan started at `end` stops: at the last page up to
      `end` whose body is not blank, or at the first page. */
  function LastKept(ps: seq<Page>, end: nat): (k: nat)
    requires end < |ps|
    ensures k <= end
    ensures forall i :: k < i <= end ==> IsBlank(ps[i].content)
    ensures k == 0 || !IsBlank(ps[k].content)
  {
    if end == 0 || !IsBlank(ps[end].content) then end else LastKept(ps, end - 1)
  }

  /** How many pages the trimmer keeps. */
  function KeptCount(ps: seq<Page>): (n: nat)
    ensures |ps| == 0 ==> n == 0
    ensures |ps| > 0 ==> 1 <= n <= |ps|
  {
    if |ps| == 0 then 0 else LastKept(ps, |ps| - 1) + 1
  }

  /** The result of `trimEmptyTrailingPages`. */
  function Trimmed(ps: seq<Page>): (r: seq<Page>)
    ensures |r| >= 1 && DenseIds(r)
    ensures |ps| == 0 ==> r == [EmptyPage]
    ensures |ps| > 0 ==> |r| <= |ps| && forall i :: 0 <= i < |r| ==> r[i] == ps[i].(id := i + 1)
    ensures forall i :: |r| <= i < |ps| ==> IsBlank(ps[i].content)
    ensures |r| == 1 || !IsBlank(r[|r| - 1].content)
  {
    if |ps| == 0 then [EmptyPage] else Renumber(ps[..KeptCount(ps)])
  }

  /** The number of pages kept is fixed by the two facts the scan establishes:
      everything after the kept prefix is blank, and the prefix ends in a
      non-blank page unless it is the first page alone. */
  lemma {:induction false} KeptCountUnique(ps: seq<Page>, n: nat)
    requires 1 <= n <= |ps|
    requires forall i :: n <= i < |ps| ==> IsBlank(ps[i].content)
    requires n == 1 || !IsBlank(ps[n - 1].content)
    ensures KeptCount(ps) == n
  {
  }

  /** Where the scan stops depends on the page bodies only. */
  lemma {:induction false} LastKeptSameBodies(ps: seq<Page>, qs: seq<Page>, end: nat)
    requires end < |ps| == |qs|
    requires forall i :: 0 <= i < |ps| ==> ps[i].content == qs[i].content
    ensures LastKept(ps, end) == LastKept(qs, end)
    decreases end
  {
    if end > 0 {
      LastKeptSameBodies(ps, qs, end - 1);
    }
  }

  /** Two lists with the same bodies keep the same number of pages: changing
      headers or footers never changes what is trimmed. */
  lemma TrimmedSameBodies(ps: seq<Page>, qs: seq<Page>)
    requires |ps| == |qs|
    requires forall i :: 0 <= i < |ps| ==> ps[i].content == qs[i].content
    ensures |Trimmed(ps)| == |Trimmed(qs)|
  {
    if |ps| > 0 {
      LastKeptSameBodies(ps, qs, |ps| - 1);
    }
  }

  /** `trimEmptyTrailingPages`: the backward `while` loop that decrements `end`
      past blank pages, then the `slice`/`map` that keeps and renumbers the
      prefix. An empty list gives the single empty page. */
  method TrimEmptyTrailingPages(ps: seq<Page>) returns (r: seq<Page>)
    ensures r == Trimmed(ps)
    ensures |r| >= 1 && DenseIds(r)
    ensures SharedHeaderFooter(ps) ==> StoreValid(r)
  {
    if |ps| == 0 {
      return [EmptyPage];
    }
    var end := |ps| - 1;
    while end > 0
      invariant 0 <= end < |ps|
      invariant forall i :: end < i < |ps| ==> IsBlank(ps[i].content)
    {
      if !IsBlank(ps[end].content) {
        break;
      }
      end := end - 1;
    }
    KeptCountUnique(ps, end + 1);
    r := Renumber(ps[..end + 1]);
    if SharedHeaderFooter(ps) {
      TrimKeepsShared(ps);
    }
  }

  /** A trimmed document satisfies the page-sequence invariant when the input's
      header and footer were shared. */
  lemma TrimKeepsShared(ps: seq<Page>)
    requires SharedHeaderFooter(ps)
    ensures StoreValid(Trimmed(ps))
  {
    var r := Trimmed(ps);
    if |ps| > 0 {
      forall i | 0 <= i < |r| ensures r[i].header == r[0].header && r[i].footer == r[0].footer {
        assert r[i] == ps[i].(id := i + 1) && r[0] == ps[0].(id := 1);
      }
    }
  }

  /** The trimmer leaves a list unchanged exactly when it is already trimmed:
      non-empty, densely numbered, and ending in a non-blank page unless it has
      a single page. */
  lemma {:induction false} TrimFixpoint(ps: seq<Page>)
    ensures Trimmed(ps) == ps <==>
      (|ps| >= 1 && DenseIds(ps) && (|ps| == 1 || !IsBlank(ps[|ps| - 1].content)))
  {
    if |ps| >= 1 && DenseIds(ps) && (|ps| == 1 || !IsBlank(ps[|ps| - 1].content)) {
      KeptCountUnique(ps, |ps|);
      assert ps[..|ps|] == ps;
      RenumberDense(ps);
    }
  }

  /** Trimming is idempotent. */
  lemma {:induction false} TrimIdempotent(ps: seq<Page>)
    ensures Trimmed(Trimmed(ps)) == Trimmed(ps)
  {
    TrimFixpoint(Trimmed(ps));
  }

  /** When every page after the first is blank the document shrinks to one page
      (a three-page document whose second and third pages were emptied, say). */
  lemma OnlyFirstPageLeft(ps: seq<Page>)
    requires |ps| >= 1
    requires forall i :: 1 <= i < |ps| ==> IsBlank(ps[i].content)
    ensures Trimmed(ps) == [ps[0].(id := 1)]
  {
    KeptCountUnique(ps, 1);
  }

  /** No non-blank page is ever dropped: every page with visible text stays, at
      its position. */
  lemma {:induction false} TrimKeepsText(ps: seq<Page>, i: nat)
    requires i < |ps| && !IsBlank(ps[i].content)
    ensures i < |Trimmed(ps)| && Trimmed(ps)[i].content == ps[i].content
  {
  }
}
