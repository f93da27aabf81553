/**
 Properties of the inline-edit state machine that relate several actions:
 a successful commit closes the editor exactly as cancelling does, a failed
 commit can be retried, a previously shown error never influences a commit,
 and the asynchronous commit agrees with the synchronous one when the awaited
 request succeeds.
 */
module Editing {
  import opened Wrappers
  import opened LinksTable

  /** Every link identifier occurs at most once in the list. */
  predicate UniqueIds(links: seq<Link>)
  {
    forall i, j :: 0 <= i < j < |links| ==> links[i].linkId != links[j].linkId
  }

  /** Cancelling twice is the same as cancelling once. */
  lemma CancelEditIdempotent(t: Table)
    ensures CancelEdit(CancelEdit(t)) == CancelEdit(t)
  {
  }

  /** Opening the editor and cancelling leaves no trace of the edit. */
  lemma CancelUndoesEdit(t: Table, id: LinkId)
    ensures CancelEdit(EditLink(t, id)) == CancelEdit(t)
  {
  }

  /** A commit of a parsable URL for an existing link closes the editor exactly
      as `cancelEdit` would. */
  lemma SetLinkSuccessClosesLikeCancel(t: Table, links: seq<Link>, raw: string,
                                       parse: string -> Option<string>)
    requires parse(raw).Some? && HasLink(links, t.editingLink)
    ensures SetLink(t, links, raw, parse).table == CancelEdit(t)
  {
  }

  /** A failed commit leaves a state in which committing the same text again
      gives the same state and again makes no call. */
  lemma SetLinkFailureIsStable(t: Table, links: seq<Link>, raw: string,
                               parse: string -> Option<string>)
    requires parse(raw).None? || !HasLink(links, t.editingLink)
    ensures var s := SetLink(t, links, raw, parse);
            SetLink(s.table, links, raw, parse) == s
  {
  }

  /** The outcome of a commit does not depend on which error was shown before. */
  lemma SetLinkIgnoresShownError(t: Table, links: seq<Link>, raw: string,
                                 parse: string -> Option<string>, shown: Option<LinkId>)
    ensures SetLink(t.(showError := shown), links, raw, parse) == SetLink(t, links, raw, parse)
  {
  }

  /** Committing while no link is being edited makes no call, keeps the editor
      closed and clears the error (showError is set to the null edit target). */
  lemma SetLinkWithoutEditor(t: Table, links: seq<Link>, raw: string,
                             parse: string -> Option<string>)
    requires t.editingLink.None?
    ensures SetLink(t, links, raw, parse) == Step(t.(showError := None), None)
  {
  }

  /** With unique identifiers, opening the editor on link i and committing a URL
      that parses to `href` asks the caller to retarget exactly that link, and
      only when `href` differs from its current target. */
  lemma {:induction false} EditThenCommit(t: Table, links: seq<Link>, i: nat, raw: string,
                                          parse: string -> Option<string>, href: string)
    requires UniqueIds(links) && i < |links| && parse(raw) == Some(href)
    ensures var s := SetLink(EditLink(t, links[i].linkId), links, raw, parse);
            && s.table == CancelEdit(t)
            && (s.update.Some? <==> links[i].to != href)
            && (s.update.Some? ==> s.update.value == Update(links[i].linkId, href))
  {
    var id := Some(links[i].linkId);
    assert Matches(links[i], id);
    var l := FindLink(links, id);
    assert l.Some?;
    var k :| 0 <= k < |links| && links[k] == l.value && forall j :: 0 <= j < k ==> !Matches(links[j], id);
    assert k == i;
  }

  /** When the awaited request succeeds (or none is needed), the asynchronous
      commit reaches the same state and makes the same call as `setLink`, and
      returns true exactly when the editor was closed by a valid commit. */
  lemma UpdateLinksTaskAgreesWithSetLink(t: Table, links: seq<Link>, raw: string,
                                         parse: string -> Option<string>)
    ensures var a := UpdateLinksTask(t, links, raw, parse, true);
            var s := SetLink(t, links, raw, parse);
            && a.table == s.table && a.update == s.update
            && (a.returned <==> parse(raw).Some? && HasLink(links, t.editingLink))
  {
  }

  /** A rejected retarget request leaves the editor open on the link with its
      error shown, although the request was made. */
  lemma UpdateLinksTaskRejected(t: Table, links: seq<Link>, raw: string,
                                parse: string -> Option<string>)
    requires parse(raw).Some? && HasLink(links, t.editingLink)
    requires FindLink(links, t.editingLink).value.to != parse(raw).value
    ensures var a := UpdateLinksTask(t, links, raw, parse, false);
            && a.update == SetLink(t, links, raw, parse).update
            && a.update.Some?
            && a.table == t.(showError := t.editingLink)
            && !a.returned
  {
  }
}
