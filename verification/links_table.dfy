/**
 The admin links table component: a page number and an inline-edit state
 over a list of links the caller owns. The component never changes the list;
 the only thing it sends out is a request to retarget one link, which the
 model returns as an `Update` instead of performing.
 */
module LinksTable {
  import opened Wrappers
  import opened Pagination

  type LinkId = string

  /** The `link` part of a link record: its identifier and its current target URL. */
  datatype Link = Link(linkId: LinkId, to: string)

  /** The component's tracked state: the current page, the link being edited,
      and the link whose last edit attempt failed. */
  datatype Table = Table(page: int, editingLink: Option<LinkId>, showError: Option<LinkId>)

  /** The state a freshly created table starts in. */
  const Initial: Table := Table(1, None, None)

  /** A call `updateLink(linkId, href)` to the caller. */
  datatype Update = Update(linkId: LinkId, href: string)

  /** The outcome of a synchronous action: the new state and the call it made, if any. */
  datatype Step = Step(table: Table, update: Option<Update>)

  /** The outcome of the asynchronous variant: additionally whether it returned `true`. */
  datatype TaskStep = TaskStep(table: Table, update: Option<Update>, returned: bool)

  /** `link.link_id === editingLink`; a `null` edit target matches no link. */
  predicate Matches(link: Link, id: Option<LinkId>)
  {
    id == Some(link.linkId)
  }

  /** Some link in the list carries the identifier `id`. */
  predicate HasLink(links: seq<Link>, id: Option<LinkId>)
  {
    exists i :: 0 <= i < |links| && Matches(links[i], id)
  }

  /** Position of the first link at or after `from` whose identifier is `id`. */
  function FindFrom(links: seq<Link>, id: Option<LinkId>, from: nat): (r: Option<nat>)
    requires from <= |links|
    ensures r.Some? ==> from <= r.value < |links| && Matches(links[r.value], id)
    ensures r.Some? ==> forall j :: from <= j < r.value ==> !Matches(links[j], id)
    ensures r.None? ==> forall j :: from <= j < |links| ==> !Matches(links[j], id)
    decreases |links| - from
  {
    if from == |links| then None
    else if Matches(links[from], id) then Some(from)
    else FindFrom(links, id, from + 1)
  }

  /** `links.find(l => l.link.link_id === id)`: the first link with that identifier. */
  function FindLink(links: seq<Link>, id: Option<LinkId>): (r: Option<Link>)
    ensures r.None? <==> !HasLink(links, id)
    ensures r.Some? ==> Matches(r.value, id)
    ensures r.Some? ==> exists i :: 0 <= i < |links| && links[i] == r.value &&
                           forall j :: 0 <= j < i ==> !Matches(links[j], id)
  {
    match FindFrom(links, id, 0)
    case None => None
    case Some(i) => Some(links[i])
  }

  /** `totalLinks`: the number of links, which is where the last page ends. */
  function TotalLinks(links: seq<Link>): (r: nat)
    ensures r == EndOffset(TotalPages(|links|), |links|)
  {
    |links|
  }

  /** `disablePreviousPage`: true exactly when the current page starts at the first link. */
  function DisablePreviousPage(t: Table): (r: bool)
    ensures r <==> StartOffset(t.page) == 1
  {
    t.page == 1
  }

  /** `disableNextPage`: on an existing page, true exactly when that page shows the last link. */
  function DisableNextPage(t: Table, links: seq<Link>): (r: bool)
    ensures 1 <= t.page <= TotalPages(|links|) ==> (r <==> EndOffset(t.page, |links|) == |links|)
    ensures |links| == 0 ==> (r <==> t.page == 0)
    ensures t.page > TotalPages(|links|) ==> !r
  {
    t.page == TotalPages(|links|)
  }

  /** `openPreviousPage`: go back one page unless already on page 1. */
  function OpenPreviousPage(t: Table): (r: Table)
    ensures DisablePreviousPage(t) ==> r == t
    ensures !DisablePreviousPage(t) ==> r.page == t.page - 1
    ensures r.editingLink == t.editingLink && r.showError == t.showError
    ensures 1 <= t.page ==> 1 <= r.page <= t.page
  {
    if DisablePreviousPage(t) then t else t.(page := t.page - 1)
  }

  /** `openNextPage`: go forward one page unless already on the last page. */
  function OpenNextPage(t: Table, links: seq<Link>): (r: Table)
    ensures DisableNextPage(t, links) ==> r == t
    ensures !DisableNextPage(t, links) ==> r.page == t.page + 1
    ensures r.editingLink == t.editingLink && r.showError == t.showError
    ensures 1 <= t.page <= TotalPages(|links|) ==> t.page <= r.page <= TotalPages(|links|)
  {
    if DisableNextPage(t, links) then t else t.(page := t.page + 1)
  }

  /** `editLink(linkId)`: open the inline editor on a link. */
  function EditLink(t: Table, id: LinkId): (r: Table)
    ensures r.editingLink == Some(id)
    ensures r.showError == t.showError && r.page == t.page
  {
    t.(editingLink := Some(id))
  }

  /** `cancelEdit`: close the editor and clear the error, from any state. */
  function CancelEdit(t: Table): (r: Table)
    ensures r.editingLink == None && r.showError == None
    ensures r.page == t.page
  {
    t.(editingLink := None, showError := None)
  }

  /** The state after a failed edit attempt: the editor stays open on the same
      link and the error is shown for it. */
  function Failed(t: Table): Table
  {
    t.(showError := t.editingLink)
  }

  /** `setLink`: commit the raw text typed into the editor. `parse` is the URL
      parser, returning the normalised `href` or None when the text is not an
      absolute URL. A parse failure and an edit target that matches no link
      both end in the error state; otherwise the editor closes, and the caller
      is asked to retarget the link only when the new href differs from its
      current target. */
  function SetLink(t: Table, links: seq<Link>, raw: string, parse: string -> Option<string>): (r: Step)
    ensures r.table.page == t.page
    ensures parse(raw).None? || !HasLink(links, t.editingLink) ==>
              r.update.None? && r.table.editingLink == t.editingLink && r.table.showError == t.editingLink
    ensures parse(raw).Some? && HasLink(links, t.editingLink) ==>
              && r.table.editingLink.None? && r.table.showError.None?
              && (r.update.Some? <==> FindLink(links, t.editingLink).value.to != parse(raw).value)
    ensures r.update.Some? ==>
              && Some(r.update.value.linkId) == t.editingLink
              && Some(r.update.value.href) == parse(raw)
              && exists i :: 0 <= i < |links| && links[i].linkId == r.update.value.linkId
                                              && links[i].to != r.update.value.href
  {
    match parse(raw)
    case None => Step(Failed(t), None)
    case Some(href) =>
      match FindLink(links, t.editingLink)
      case None => Step(Failed(t), None)
      case Some(link) =>
        var update := if link.to != href then Some(Update(link.linkId, href)) else None;
        Step(CancelEdit(t), update)
  }

  /** The `updateLinks` task: `setLink` with the raw text passed explicitly, in
      which the retarget request is awaited. `performSucceeds` says whether the
      awaited request settles successfully; when it rejects, the editor stays
      open with the error shown and the task returns nothing. */
  function UpdateLinksTask(t: Table, links: seq<Link>, raw: string, parse: string -> Option<string>,
                           performSucceeds: bool): (r: TaskStep)
    ensures r.table.page == t.page
    ensures r.returned <==> r.table.editingLink.None? && r.table.showError.None?
                            && parse(raw).Some? && HasLink(links, t.editingLink)
    ensures !r.returned ==> r.table.editingLink == t.editingLink && r.table.showError == t.editingLink
    ensures r.update.Some? ==>
              && Some(r.update.value.linkId) == t.editingLink
              && Some(r.update.value.href) == parse(raw)
    ensures parse(raw).None? || !HasLink(links, t.editingLink) ==> r.update.None?
    ensures r.update.Some? ==>
              exists i :: 0 <= i < |links| && links[i].linkId == r.update.value.linkId
                                           && links[i].to != r.update.value.href
    ensures r.update.Some? && !performSucceeds ==> !r.returned
    ensures parse(raw).Some? && HasLink(links, t.editingLink) ==>
              && (r.update.Some? <==> FindLink(links, t.editingLink).value.to != parse(raw).value)
              && (r.returned <==> r.update.None? || performSucceeds)
  {
    match parse(raw)
    case None => TaskStep(Failed(t), None, false)
    case Some(href) =>
      match FindLink(links, t.editingLink)
      case None => TaskStep(Failed(t), None, false)
      case Some(link) =>
        if link.to != href then
          var update := Some(Update(link.linkId, href));
          if performSucceeds then TaskStep(CancelEdit(t), update, true)
          else TaskStep(Failed(t), update, false)
        else TaskStep(CancelEdit(t), None, true)
  }
}
