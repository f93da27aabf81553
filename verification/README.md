# Ghost admin links table, modelled in Dafny

This project models `LinksTable`, the Ghost admin component that lists the
outbound links of a post and lets an editor retarget them in place. The
component shows the caller's list five links at a time, with previous/next
buttons. It also keeps a one-link inline editor: `editLink` opens it,
`cancelEdit` closes it, and `setLink` commits the typed text. A commit parses
the text as a URL, finds the edited link, asks the caller to retarget it only
when the URL really changed, and on any failure shows the error for the edited
link.

The model is functional:

- The tracked state `(page, editingLink, showError)` is the datatype
  `LinksTable.Table`. `null` is `None`.
- The caller's `links` argument is an immutable `seq<Link>`. A `Link` is the
  `link` part of a record: `link_id` and `to`.
- Each action is a pure function from the old state to the new one.
- The caller's `updateLink(linkId, href)` callback is not performed. Instead
  the action returns an `Update` value.
- The URL parser (`new URL(...)`, the basic URL parser of the WHATWG URL
  Standard) is a parameter `parse: string -> Option<string>`. It returns the
  normalised `href`, or `None` where the constructor throws.

Files:

- `wrappers.dfy`: `Option`.
- `pagination.dfy`: the page arithmetic, generic in the element type. This
  includes `Array.prototype.slice` with its negative-index rule.
- `links_table.dfy`: the state, the getters and the actions.
- `navigation.dfy`: sequences of page moves and their invariants.
- `editing.dfy`: lemmas that relate several edit actions.

Two behaviours of the code are worth knowing:

- With no links, `totalPages` is 0. `disableNextPage` is then false on page 1,
  so "next" still advances the page. More generally, on any page past the last
  one "next" stays enabled and keeps advancing; this happens when the caller
  hands in a shorter list under the current page. The range invariant
  therefore assumes the page starts on an existing page, which needs a
  non-empty list. `Navigation.NextPastLastPage` and
  `Navigation.EmptyListNextLeavesRange` state these cases.
- When the awaited request of the `updateLinks` task rejects, the catch block
  sets `showError` to the edited link and the editor stays open. The task then
  returns nothing, where a success returns `true`.

## Model

| member | source | states |
|---|---|---|
| Pagination.JsSlice | ghost/admin/app/components/posts/links-table.js:77 | `slice` with non-negative bounds takes the elements between the clamped bounds, and is empty when the end does not lie after the start |
| Pagination.TotalPages | ghost/admin/app/components/posts/links-table.js:88-90 | the page count is the ceiling of count / 5: enough pages for every link, and fewer than five links of slack on the last page |
| Pagination.ShowPagination | ghost/admin/app/components/posts/links-table.js:96-98 | the controls are shown exactly when there are more than five links |
| Pagination.StartOffset | ghost/admin/app/components/posts/links-table.js:80-82 | page p starts at the first row of the (p-1)-th block of five links |
| Pagination.EndOffset | ghost/admin/app/components/posts/links-table.js:84-86 | the last row shown is the smaller of the page's last slot and the link count, and on a page starting within the list it does not lie before that page's start |
| Pagination.VisibleLinks | ghost/admin/app/components/posts/links-table.js:76-86 | at most five links on any page number, even zero or negative; on page p >= 1 the links from position startOffset to endOffset in caller order; nothing past the end of the list; every existing page is non-empty |
| Pagination.PagesArePrefix | ghost/admin/app/components/posts/links-table.js:76-90 | pages 1..k read in order are exactly the first endOffset(k) links |
| Pagination.PagesReconstructList | ghost/admin/app/components/posts/links-table.js:76-90 | pages 1..totalPages read in order give back the whole list: the pages are disjoint and cover the list |
| Pagination.LinkOnItsPage | ghost/admin/app/components/posts/links-table.js:76-90 | link i is shown on the existing page i/5+1, in row i mod 5 |
| Pagination.OffsetsSpanVisibleLinks | ghost/admin/app/components/posts/links-table.js:76-86 | on an existing page, 1 <= startOffset <= endOffset <= count, and the counters span exactly the visible rows |
| LinksTable.FindLink | ghost/admin/app/components/posts/links-table.js:39-41 | `find` returns None exactly when no link has the id; otherwise it returns the first link in the list with that id |
| LinksTable.TotalLinks | ghost/admin/app/components/posts/links-table.js:92-94 | the link count is where the last page ends |
| LinksTable.DisablePreviousPage | ghost/admin/app/components/posts/links-table.js:100-102 | "previous" is disabled exactly when the page starts at the first link |
| LinksTable.DisableNextPage | ghost/admin/app/components/posts/links-table.js:104-106 | on an existing page, "next" is disabled exactly when the page shows the last link; never past the last page; with no links, only on page 0 |
| LinksTable.OpenPreviousPage | ghost/admin/app/components/posts/links-table.js:108-114 | a no-op on page 1, otherwise one page back; never below page 1 when starting at 1 or later; edit state untouched |
| LinksTable.OpenNextPage | ghost/admin/app/components/posts/links-table.js:116-123 | a no-op on the last page, otherwise one page forward; stays within the pages when starting on one; edit state untouched |
| LinksTable.EditLink | ghost/admin/app/components/posts/links-table.js:22-25 | opens the editor on the given id; error and page unchanged |
| LinksTable.CancelEdit | ghost/admin/app/components/posts/links-table.js:27-32 | from any state, editor and error both cleared; page unchanged |
| LinksTable.SetLink | ghost/admin/app/components/posts/links-table.js:34-51 | if the text does not parse or no link has the edited id: no call, editor still open, error shown for the edited id. Otherwise: editor and error cleared, and a call is made exactly when the new href differs from the found link's target. Any call names the edited id and the parsed href. Page unchanged |
| LinksTable.UpdateLinksTask | ghost/admin/app/components/posts/links-table.js:53-70 | when the text parses and the link exists, the request is awaited exactly when the href differs from the link's target, and the task returns true exactly when no request was needed or it succeeded. Returning true means the editor was closed by a valid commit; every other outcome leaves the editor open with the error shown for the edited link. A text that does not parse or an edit target that matches no link makes no request. Any request names the edited id and the parsed href, and a link in the list with that id whose target differs |
| Navigation.NavigateStaysInRange | ghost/admin/app/components/posts/links-table.js:100-123 | from an existing page, any sequence of previous/next moves ends on an existing page |
| Navigation.NavigateKeepsEditState | ghost/admin/app/components/posts/links-table.js:108-123 | no sequence of page moves changes the edited link or the shown error |
| Navigation.NextRepeated | ghost/admin/app/components/posts/links-table.js:104-123 | n presses of "next" from an existing page reach min(page + n, totalPages) |
| Navigation.PreviousRepeated | ghost/admin/app/components/posts/links-table.js:100-114 | n presses of "previous" from page 1 or later reach max(page - n, 1) |
| Navigation.NextThenPrevious | ghost/admin/app/components/posts/links-table.js:100-123 | below the last page, "next" then "previous" restores the table |
| Navigation.PreviousThenNext | ghost/admin/app/components/posts/links-table.js:100-123 | above page 1, "previous" then "next" restores the table |
| Navigation.EmptyListNextLeavesRange | ghost/admin/app/components/posts/links-table.js:88-123 | with no links there are no pages and no controls, yet "next" moves from page 1 to page 2 |
| Navigation.NextPastLastPage | ghost/admin/app/components/posts/links-table.js:104-123 | on any page past the last one "next" is enabled and moves one page further |
| Navigation.InitialNavigationStaysInRange | ghost/admin/app/components/posts/links-table.js:9-12 | a new table (page 1, no editor, no error) over a non-empty list stays on an existing page with the editor closed under every sequence of moves |
| Editing.CancelEditIdempotent | ghost/admin/app/components/posts/links-table.js:27-32 | cancelling twice equals cancelling once |
| Editing.CancelUndoesEdit | ghost/admin/app/components/posts/links-table.js:22-32 | opening the editor then cancelling equals cancelling |
| Editing.SetLinkSuccessClosesLikeCancel | ghost/admin/app/components/posts/links-table.js:37-47 | a commit that parses and finds its link leaves the same state as `cancelEdit` |
| Editing.SetLinkFailureIsStable | ghost/admin/app/components/posts/links-table.js:37-50 | after a failed commit, committing the same text again gives the same state and makes no call |
| Editing.SetLinkIgnoresShownError | ghost/admin/app/components/posts/links-table.js:34-51 | the previously shown error never influences a commit |
| Editing.SetLinkWithoutEditor | ghost/admin/app/components/posts/links-table.js:37-50 | committing with no link being edited makes no call and leaves editor and error cleared |
| Editing.EditThenCommit | ghost/admin/app/components/posts/links-table.js:22-47 | with unique ids, editing link i then committing a URL asks to retarget exactly link i, only when the href differs from its target, and closes the editor |
| Editing.UpdateLinksTaskAgreesWithSetLink | ghost/admin/app/components/posts/links-table.js:34-70 | when the awaited request succeeds, the task reaches the same state and makes the same call as `setLink` |
| Editing.UpdateLinksTaskRejected | ghost/admin/app/components/posts/links-table.js:53-70 | a rejected retarget request is still made, leaves the editor open with the error shown, and returns nothing |

## Left out

- `ghost/core/test/e2e-webhooks/members.test.js`: end-to-end tests that drive an HTTP admin API, a fixture database and a mock webhook receiver, none of which is part of this model.
- `blurElement` (links-table.js:14-20) and the `event.preventDefault()` calls in `cancelEdit` and `setLink`: DOM event handling with no effect on the component's state.
- The internals of the URL parser: `parse` is a parameter, so every property holds for any parser.
- The `links` getter (links-table.js:72-74): it only forwards the caller's argument, which is the `links` parameter here.
- Ember/Glimmer machinery (`@tracked`, `@action`, `this.args`): state is passed and returned explicitly.
- UpdateLinksTask: reads the raw text from an ambient `event` in the source. The model takes it as a parameter instead. Other actions that run while the task is suspended at its `yield`, and cancellation of the task, are not modelled.
- SetLink: assumes the caller's `updateLink` callback returns normally. If it threw, the source's catch block would show the error.
- TotalPages: computes `Math.ceil(count / 5)` in integer arithmetic. This is exact for every array length JavaScript can hold.
- Link: keeps only `link_id` and `to` from a link record. The component reads no other field.
