/**
 * The read-only page view: the status shown for a page, the order its blocks
 * are rendered in, and when the edit and delete controls appear.
 */
module PageView {
  import opened Wrappers
  import opened Blocks
  import opened Sorting
  import Handlers
  import PagesDao

  datatype Status = Draft | Published | Programmed

  /**
   * No publication date: Draft; a date not after today: Published; a later
   * date: Programmed.
   */
  function PageStatus(pubblicazione: Option<int>, today: int): (st: Status)
    ensures st == Draft <==> pubblicazione.None?
    ensures st == Published <==> pubblicazione.Some? && pubblicazione.value <= today
    ensures st == Programmed <==> pubblicazione.Some? && pubblicazione.value > today
  {
    if pubblicazione.None? then Draft
    else if !(pubblicazione.value > today) then Published
    else Programmed
  }

  /** The view calls Published exactly the pages the front page lists. */
  lemma PublishedIsVisible(p: PagesDao.PageRec, today: int)
    ensures PageStatus(p.pubblicazione, today) == Published <==> PagesDao.Visible(p, today)
  {
  }

  /** `toSorted` by position: a sorted permutation of the page's blocks, which stay as they are. */
  function RenderOrder(blocks: seq<Block>): (r: seq<Block>)
    ensures SortedBy(r, Position)
    ensures multiset(r) == multiset(blocks)
  {
    SortBy(blocks, Position)
  }

  /** Rendering a page whose blocks are already in order shows them in that order. */
  lemma RenderSorted(blocks: seq<Block>)
    requires SortedBy(blocks, Position)
    ensures RenderOrder(blocks) == blocks
  {
    SortSorted(blocks, Position);
  }

  /** The footer condition: a user who is the author or an admin, on a view labelled "Back". */
  predicate ShowControls(user: Option<User>, authorId: int, viewLabel: string) {
    user.Some? && (user.value.id == authorId || user.value.role == Handlers.AdminRole) && viewLabel == "Back"
  }

  /**
   * The controls the view shows are the ones the server lets through: whoever
   * sees them passes the author-or-admin check of the update and delete
   * handlers, and without a user or away from the back view they never show.
   */
  lemma ControlsImplyAuthorized(user: Option<User>, authorId: int, viewLabel: string)
    ensures ShowControls(user, authorId, viewLabel) <==>
              user.Some? && Handlers.Authorized(user.value, authorId) && viewLabel == "Back"
  {
  }
}
