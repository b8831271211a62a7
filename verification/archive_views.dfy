/** The archive: a members-only list of archived posts and an archived post's page. */
module ArchiveViews {
  import opened Basics
  import opened Queries
  import opened Models
  import opened Http
  import Pagination
  import PublicViews

  const PaginateBy := 10

  /** The archive queryset: every archived post, newest publication first. */
  function ArchiveQuery(st: Store): (r: seq<Row>)
    ensures forall row :: row in r <==> IsRecord(st, row) && row.post.status == Archived
    ensures Distinct(r)
    ensures SortedDesc(r, PubKey)
  {
    PostsByPubDate(st, Archived)
  }

  /** One page of the archive, for a signed-in reader only: ten archived
      posts at a time, in archive order, and a 404 past the last page. */
  function ArchiveList(st: Store, principal: Option<UserId>, page: int): (r: ListPage<Row>)
    ensures r.ListLoginRedirect? <==> principal.None?
    ensures r.Page? <==> principal.Some? && 1 <= page <= Pagination.NumPages(|ArchiveQuery(st)|, PaginateBy)
    ensures r.Page? ==> Pagination.IsPage(ArchiveQuery(st), page, PaginateBy, r.items)
    ensures principal.Some? && page == 1 ==> r.Page?
    ensures r.Page? ==> |r.items| <= PaginateBy
    ensures r.Page? ==> forall row :: row in r.items ==> IsRecord(st, row) && row.post.status == Archived
    ensures r.Page? ==> SortedDesc(r.items, PubKey)
  {
    if principal.None? then ListLoginRedirect
    else
      var all := ArchiveQuery(st);
      match Pagination.Paginate(all, page, PaginateBy)
      case None => ListNotFound
      case Some(items) =>
        Pagination.PageOfListing(all, page, PaginateBy, items);
        Pagination.PageOfSortedListing(all, page, PaginateBy, items, PubKey);
        Page(items)
  }

  /** A signed-in reader finds every archived post on some archive page. */
  lemma {:induction false} ArchivedPostIsOnAnArchivePage(st: Store, principal: Option<UserId>, row: Row)
    requires principal.Some? && IsRecord(st, row) && row.post.status == Archived
    ensures exists page :: ArchiveList(st, principal, page).Page? && row in ArchiveList(st, principal, page).items
  {
    var all := ArchiveQuery(st);
    var page := Pagination.IndexOf(all, row) / PaginateBy + 1;
    assert ArchiveList(st, principal, page).Page? && row in ArchiveList(st, principal, page).items by {
      Pagination.ListedItemOnItsPage(all, PaginateBy, row, ArchiveList(st, principal, page).items);
    }
  }

  /** `get(pk=pk)` on the archive detail view's queryset: the archived posts. */
  function ArchiveDetail(st: Store, pk: PostId): (r: Option<Post>)
    ensures r.Some? <==> pk in st.posts && st.posts[pk].status == Archived
    ensures r.Some? ==> r.value == st.posts[pk]
  {
    var rows := WithStatus(st, Archived);
    assert pk in st.posts && st.posts[pk].status == Archived ==> Row(pk, st.posts[pk]) in rows;
    GetByPk(rows, pk)
  }

  /** A post has an archive page exactly when the archive lists it. */
  lemma ArchiveDetailIffListed(st: Store, pk: PostId)
    ensures ArchiveDetail(st, pk).Some? <==> exists row :: row in ArchiveQuery(st) && row.id == pk
  {
    if ArchiveDetail(st, pk).Some? {
      assert Row(pk, st.posts[pk]) in ArchiveQuery(st);
    }
  }

  /** Which read path shows a stored post is decided by its status alone: a
      draft is shown by neither detail page, a published post only by the
      public one, an archived post only by the archive's. */
  lemma DetailPagesPartitionByStatus(st: Store, pk: PostId)
    requires pk in st.posts
    ensures st.posts[pk].status == Draft ==>
              PublicViews.Detail(st, pk).None? && ArchiveDetail(st, pk).None?
    ensures st.posts[pk].status == Published ==>
              PublicViews.Detail(st, pk) == Some(st.posts[pk]) && ArchiveDetail(st, pk).None?
    ensures st.posts[pk].status == Archived ==>
              PublicViews.Detail(st, pk).None? && ArchiveDetail(st, pk) == Some(st.posts[pk])
  {
  }
}
