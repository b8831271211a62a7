/** The views anyone may use: the index, a post's page, adding a comment. */
module PublicViews {
  import opened Basics
  import opened Queries
  import opened Models
  import opened Http
  import Pagination

  const PaginateBy := 10

  /** The index queryset: every published post, newest publication first. */
  function IndexQuery(st: Store): (r: seq<Row>)
    ensures forall row :: row in r <==> IsRecord(st, row) && row.post.status == Published
    ensures Distinct(r)
    ensures SortedDesc(r, PubKey)
  {
    PostsByPubDate(st, Published)
  }

  /** One page of the index: ten published posts at a time, in index order.
      Page 1 always exists; a number past the last page is a 404. */
  function Index(st: Store, page: int): (r: ListPage<Row>)
    ensures r.Page? || r.ListNotFound?
    ensures r.Page? <==> 1 <= page <= Pagination.NumPages(|IndexQuery(st)|, PaginateBy)
    ensures r.Page? ==> Pagination.IsPage(IndexQuery(st), page, PaginateBy, r.items)
    ensures r.Page? ==> |r.items| <= PaginateBy
    ensures r.Page? ==> forall row :: row in r.items ==> IsRecord(st, row) && row.post.status == Published
    ensures r.Page? ==> SortedDesc(r.items, PubKey)
  {
    var all := IndexQuery(st);
    match Pagination.Paginate(all, page, PaginateBy)
    case None => ListNotFound
    case Some(items) =>
      Pagination.PageOfListing(all, page, PaginateBy, items);
      Pagination.PageOfSortedListing(all, page, PaginateBy, items, PubKey);
      Page(items)
  }

  /** Every published post is listed on some page of the index. */
  lemma {:induction false} PublishedPostIsOnAnIndexPage(st: Store, row: Row)
    requires IsRecord(st, row) && row.post.status == Published
    ensures exists page :: Index(st, page).Page? && row in Index(st, page).items
  {
    var all := IndexQuery(st);
    var page := Pagination.IndexOf(all, row) / PaginateBy + 1;
    assert Index(st, page).Page? && row in Index(st, page).items by {
      Pagination.ListedItemOnItsPage(all, PaginateBy, row, Index(st, page).items);
    }
  }

  /** `get(pk=pk)` on the detail view's queryset: the published posts. */
  function Detail(st: Store, pk: PostId): (r: Option<Post>)
    ensures r.Some? <==> pk in st.posts && st.posts[pk].status == Published
    ensures r.Some? ==> r.value == st.posts[pk]
  {
    var rows := WithStatus(st, Published);
    assert pk in st.posts && st.posts[pk].status == Published ==> Row(pk, st.posts[pk]) in rows;
    GetByPk(rows, pk)
  }

  /** A post has a public page exactly when the index lists it. */
  lemma DetailIffIndexed(st: Store, pk: PostId)
    ensures Detail(st, pk).Some? <==> exists row :: row in IndexQuery(st) && row.id == pk
  {
    if Detail(st, pk).Some? {
      assert Row(pk, st.posts[pk]) in IndexQuery(st);
    }
  }

  const CommentAddedMessage := "Comment added successfully!"

  /** Posting the comment form: the post must exist and be published, the
      form supplies only the name and text, and the reader is sent back to
      the post. */
  function AddComment(st: Store, pk: PostId, name: string, text: string, now: Time, methods: PostMethods): (o: Outcome)
    ensures Detail(st, pk).None? ==> o == Outcome(st, NotFound, None)
    ensures Detail(st, pk).Some? && !(ValidCommentName(name) && ValidCommentText(text)) ==>
              o == Outcome(st, FormInvalid, None)
    ensures Detail(st, pk).Some? && ValidCommentName(name) && ValidCommentText(text) ==>
              o.response.Redirect?
    ensures o.store != st ==> pk in st.posts && st.posts[pk].status == Published
    ensures o.response.Redirect? ==>
              && pk in st.posts
              && o.store == InsertComment(st, pk, name, text, now)
              && o.response.target == AbsoluteUrl(methods.absoluteUrl(pk, st.posts[pk]))
              && o.message == Some(Success(CommentAddedMessage))
    ensures o.response in {NotFound, FormInvalid} || o.response.Redirect?
  {
    match Detail(st, pk)
    case None => Outcome(st, NotFound, None)
    case Some(post) =>
      if ValidCommentName(name) && ValidCommentText(text) then
        Outcome(InsertComment(st, pk, name, text, now),
                Redirect(AbsoluteUrl(methods.absoluteUrl(pk, post))),
                Some(Success(CommentAddedMessage)))
      else
        Outcome(st, FormInvalid, None)
  }

  /** A comment is only ever stored on an existing post and within its limits. */
  lemma AddCommentPreservesInvariants(st: Store, pk: PostId, name: string, text: string, now: Time, methods: PostMethods)
    requires WellFormed(st) && FieldsValid(st)
    ensures WellFormed(AddComment(st, pk, name, text, now, methods).store)
    ensures FieldsValid(AddComment(st, pk, name, text, now, methods).store)
  {
    if Detail(st, pk).Some? && ValidCommentName(name) && ValidCommentText(text) {
      InsertCommentPreservesInvariants(st, pk, name, text, now);
    }
  }

  /** A successful comment raises the post's comment count by one, and when
      the clock has moved past every comment on the post it heads the post's
      newest-first comment list. */
  lemma {:induction false} AddedCommentListedFirst(st: Store, pk: PostId, name: string, text: string, now: Time, methods: PostMethods)
    requires AddComment(st, pk, name, text, now, methods).response.Redirect?
    ensures |CommentsOf(AddComment(st, pk, name, text, now, methods).store, pk)| == |CommentsOf(st, pk)| + 1
    ensures (forall c :: c in st.comments && c.post == pk ==> c.datePub < now) ==>
              CommentsOf(AddComment(st, pk, name, text, now, methods).store, pk)[0] ==
              Comment(st.nextCommentId, pk, name, text, now)
  {
    var st' := InsertComment(st, pk, name, text, now);
    assert AddComment(st, pk, name, text, now, methods).store == st';
    CommentsOfAfterInsert(st, pk, name, text, now);
    if forall c :: c in st.comments && c.post == pk ==> c.datePub < now {
      NewCommentHeadsItsPost(st, pk, name, text, now);
    }
  }

  /** With the clock past every comment on the post, a new comment is the
      newest on its post. */
  lemma NewCommentHeadsItsPost(st: Store, pk: PostId, name: string, text: string, now: Time)
    requires forall c :: c in st.comments && c.post == pk ==> c.datePub < now
    ensures var after := CommentsOf(InsertComment(st, pk, name, text, now), pk);
            |after| > 0 && after[0] == Comment(st.nextCommentId, pk, name, text, now)
  {
    var st' := InsertComment(st, pk, name, text, now);
    var c0 := Comment(st.nextCommentId, pk, name, text, now);
    var after := CommentsOf(st', pk);
    assert c0 in after by {
      assert st'.comments == st.comments + [c0];
    }
    var i :| 0 <= i < |after| && after[i] == c0;
    var h := after[0];
    assert h.datePub >= now by {
      HeadOfSorted(after, CommentKey, i);
    }
    assert h in st.comments || h == c0 by {
      assert h in st'.comments;
      assert st'.comments == st.comments + [c0];
    }
  }

  /** Inserting a comment adds exactly that comment to its post's list. */
  lemma CommentsOfAfterInsert(st: Store, pk: PostId, name: string, text: string, now: Time)
    ensures var c0 := Comment(st.nextCommentId, pk, name, text, now);
            && multiset(CommentsOf(InsertComment(st, pk, name, text, now), pk)) == multiset(CommentsOf(st, pk)) + multiset{c0}
            && |CommentsOf(InsertComment(st, pk, name, text, now), pk)| == |CommentsOf(st, pk)| + 1
  {
    var st' := InsertComment(st, pk, name, text, now);
    var c0 := Comment(st.nextCommentId, pk, name, text, now);
    assert st'.comments == st.comments + [c0];
    var before := CommentsOf(st, pk);
    var after := CommentsOf(st', pk);
    FilterAppend(st.comments, c0, OnPost(pk));
    assert multiset(after) == multiset(before) + multiset{c0};
    assert |after| == |multiset(after)|;
  }
}
