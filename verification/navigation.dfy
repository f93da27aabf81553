/**
 Sequences of page moves (the previous/next buttons) and the invariants they
 keep: the page stays within the existing pages, the edit state is untouched,
 and the two moves undo each other away from the ends.
 */
module Navigation {
  import opened Pagination
  import opened LinksTable

  datatype PageMove = Previous | Next

  /** The table after pressing the buttons `moves` in order. */
  function Navigate(t: Table, links: seq<Link>, moves: seq<PageMove>): Table
    decreases |moves|
  {
    if |moves| == 0 then t
    else
      var t' := match moves[0]
        case Previous => OpenPreviousPage(t)
        case Next => OpenNextPage(t, links);
      Navigate(t', links, moves[1..])
  }

  /** The same move repeated n times. */
  function Repeat(m: PageMove, n: nat): (r: seq<PageMove>)
  {
    if n == 0 then [] else [m] + Repeat(m, n - 1)
  }

  /** Starting on an existing page, any sequence of moves ends on an existing page. */
  lemma {:induction false} NavigateStaysInRange(t: Table, links: seq<Link>, moves: seq<PageMove>)
    requires 1 <= t.page <= TotalPages(|links|)
    ensures 1 <= Navigate(t, links, moves).page <= TotalPages(|links|)
    decreases |moves|
  {
    if |moves| > 0 {
      var t' := match moves[0]
        case Previous => OpenPreviousPage(t)
        case Next => OpenNextPage(t, links);
      NavigateStaysInRange(t', links, moves[1..]);
    }
  }

  /** Page moves never open, close or change the inline editor or its error. */
  lemma {:induction false} NavigateKeepsEditState(t: Table, links: seq<Link>, moves: seq<PageMove>)
    ensures Navigate(t, links, moves).editingLink == t.editingLink
    ensures Navigate(t, links, moves).showError == t.showError
    decreases |moves|
  {
    if |moves| > 0 {
      var t' := match moves[0]
        case Previous => OpenPreviousPage(t)
        case Next => OpenNextPage(t, links);
      NavigateKeepsEditState(t', links, moves[1..]);
    }
  }

  /** Pressing "next" n times from an existing page advances n pages, stopping at the last one. */
  lemma {:induction false} NextRepeated(t: Table, links: seq<Link>, n: nat)
    requires 1 <= t.page <= TotalPages(|links|)
    ensures Navigate(t, links, Repeat(Next, n)).page == Min(t.page + n, TotalPages(|links|))
    decreases n
  {
    if n > 0 {
      assert Repeat(Next, n)[1..] == Repeat(Next, n - 1);
      var t' := OpenNextPage(t, links);
      NextRepeated(t', links, n - 1);
    }
  }

  /** Pressing "previous" n times from page 1 or later goes back n pages, stopping at page 1. */
  lemma {:induction false} PreviousRepeated(t: Table, links: seq<Link>, n: nat)
    requires 1 <= t.page
    ensures Navigate(t, links, Repeat(Previous, n)).page == if t.page - n < 1 then 1 else t.page - n
    decreases n
  {
    if n > 0 {
      assert Repeat(Previous, n)[1..] == Repeat(Previous, n - 1);
      var t' := OpenPreviousPage(t);
      PreviousRepeated(t', links, n - 1);
    }
  }

  /** Away from the last page, "next" then "previous" returns to the same table. */
  lemma NextThenPrevious(t: Table, links: seq<Link>)
    requires 1 <= t.page < TotalPages(|links|)
    ensures OpenPreviousPage(OpenNextPage(t, links)) == t
  {
  }

  /** Away from the first page, "previous" then "next" returns to the same table. */
  lemma PreviousThenNext(t: Table, links: seq<Link>)
    requires 1 < t.page <= TotalPages(|links|)
    ensures OpenNextPage(OpenPreviousPage(t), links) == t
  {
  }

  /** A table starts on page 1 with the editor closed; for a non-empty list
      every sequence of moves from there ends on an existing page. */
  lemma InitialNavigationStaysInRange(links: seq<Link>, moves: seq<PageMove>)
    requires 0 < |links|
    ensures 1 <= Navigate(Initial, links, moves).page <= TotalPages(|links|)
    ensures Navigate(Initial, links, moves).editingLink.None?
    ensures Navigate(Initial, links, moves).showError.None?
  {
    NavigateStaysInRange(Initial, links, moves);
    NavigateKeepsEditState(Initial, links, moves);
  }

  /** Past the last page "next" stays enabled and keeps advancing: this happens
      when the caller hands in a shorter list under the current page. */
  lemma NextPastLastPage(t: Table, links: seq<Link>)
    requires t.page > TotalPages(|links|)
    ensures !DisableNextPage(t, links)
    ensures OpenNextPage(t, links).page == t.page + 1 > TotalPages(|links|)
  {
  }

  /** With no links there are no pages, the "next" guard never fires, and the
      page can move past every page: the range invariant needs a non-empty list. */
  lemma EmptyListNextLeavesRange(t: Table)
    requires t.page == 1
    ensures TotalPages(0) == 0
    ensures OpenNextPage(t, []).page == 2
    ensures !ShowPagination(0)
  {
  }
}
