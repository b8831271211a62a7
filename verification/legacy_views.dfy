/**
  The earlier single-module revision of the views. Its index, detail,
  comment, create, edit, manage, archive-detail and action views are the
  same code as the current revision's and are modelled there; only the
  draft list differs.
*/
module LegacyViews {
  import opened Basics
  import opened Queries
  import opened Models
  import opened Http
  import Pagination
  import UserViews

  const PaginateBy := 10

  /** `user.posts.filter(status=DRAFT)`, paginated, with no ordering asked
      for: ten drafts at a time, and a 404 past the last page. */
  function DraftList(st: Store, principal: Option<UserId>, page: int): (r: ListPage<Row>)
    ensures r.ListLoginRedirect? <==> principal.None?
    ensures r.Page? <==>
              principal.Some? && 1 <= page <= Pagination.NumPages(|AuthoredWithStatus(st, principal.value, Draft)|, PaginateBy)
    ensures r.Page? ==> Pagination.IsPage(AuthoredWithStatus(st, principal.value, Draft), page, PaginateBy, r.items)
    ensures principal.Some? && page == 1 ==> r.Page?
    ensures r.Page? ==> |r.items| <= PaginateBy
    ensures r.Page? ==> forall row :: row in r.items ==>
              IsRecord(st, row) && row.post.author == principal && row.post.status == Draft
  {
    if principal.None? then ListLoginRedirect
    else
      var all := AuthoredWithStatus(st, principal.value, Draft);
      match Pagination.Paginate(all, page, PaginateBy)
      case None => ListNotFound
      case Some(items) =>
        Pagination.PageOfListing(all, page, PaginateBy, items);
        Page(items)
  }

  /** The model lists drafts in primary-key order: every draft page is in
      increasing key order. */
  lemma DraftPageKeyOrdered(st: Store, u: UserId, page: int)
    requires DraftList(st, Some(u), page).Page?
    ensures KeyOrdered(DraftList(st, Some(u), page).items)
  {
    AuthoredKeyOrdered(st, u, Draft);
    PageOfKeyOrdered(AuthoredWithStatus(st, u, Draft), page, DraftList(st, Some(u), page).items);
  }

  /** A page of a key-ordered listing is key-ordered. */
  lemma PageOfKeyOrdered(s: seq<Row>, number: int, items: seq<Row>)
    requires Pagination.IsPage(s, number, PaginateBy, items) && KeyOrdered(s)
    ensures KeyOrdered(items)
  {
    var off := (number - 1) * PaginateBy;
    forall i, j | 0 <= i < j < |items|
      ensures items[i].id < items[j].id
    {
      assert items[i] == s[off + i] && items[j] == s[off + j];
    }
  }

  /** Every draft of a user is on some page of that user's draft list. */
  lemma {:induction false} DraftIsOnADraftPage(st: Store, u: UserId, row: Row)
    requires IsRecord(st, row) && row.post.author == Some(u) && row.post.status == Draft
    ensures exists page :: DraftList(st, Some(u), page).Page? && row in DraftList(st, Some(u), page).items
  {
    var all := AuthoredWithStatus(st, u, Draft);
    var page := Pagination.IndexOf(all, row) / PaginateBy + 1;
    assert DraftList(st, Some(u), page).Page? && row in DraftList(st, Some(u), page).items by {
      Pagination.ListedItemOnItsPage(all, PaginateBy, row, DraftList(st, Some(u), page).items);
    }
  }

  /** The old draft list and the new own-posts list for "draft" select the
      same posts, each once; they differ only in order. */
  lemma DraftListMatchesUserPostList(st: Store, u: UserId)
    ensures multiset(AuthoredWithStatus(st, u, Draft)) == multiset(UserViews.OwnPosts(st, u, Draft))
    ensures |AuthoredWithStatus(st, u, Draft)| == |UserViews.OwnPosts(st, u, Draft)|
  {
  }
}
