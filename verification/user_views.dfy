/**
  The signed-in author's views: creating a draft, listing one's own posts
  by status, editing and managing a post, and the action dispatcher that
  publishes, archives, republishes or deletes it.
*/
module UserViews {
  import opened Basics
  import opened Queries
  import opened Models
  import opened Http
  import Pagination

  const PaginateBy := 10

  /** The edit and manage pages' test: the signed-in principal is the post's
      author. An author-less post passes for nobody, and an anonymous
      visitor never passes. */
  predicate IsAuthor(principal: Option<UserId>, p: Post)
  {
    principal.Some? && p.author == principal
  }

  const DraftCreatedMessage := "Draft created successfully!"

  /** Posting the new-post form: the signed-in user becomes the author of a
      new draft holding the submitted title and text. */
  function CreateDraft(st: Store, principal: Option<UserId>, title: string, text: string, now: Time, methods: PostMethods): (o: Outcome)
    ensures principal.None? ==> o == Outcome(st, LoginRedirect, None)
    ensures principal.Some? && !(ValidTitle(title) && ValidPostText(text)) ==> o == Outcome(st, FormInvalid, None)
    ensures principal.Some? && ValidTitle(title) && ValidPostText(text) ==> o.response.Redirect?
    ensures o.response.Redirect? ==>
              && principal.Some? && ValidTitle(title) && ValidPostText(text)
              && o.store.posts == st.posts[st.nextPostId := NewPost(principal, title, text, now)]
              && o.store.comments == st.comments
              && o.store.nextPostId == st.nextPostId + 1 && o.store.nextCommentId == st.nextCommentId
              && o.response.target == AbsoluteUrl(methods.absoluteUrl(st.nextPostId, o.store.posts[st.nextPostId]))
              && o.message == Some(Success(DraftCreatedMessage))
    ensures o.response in {LoginRedirect, FormInvalid} || o.response.Redirect?
  {
    if principal.None? then Outcome(st, LoginRedirect, None)
    else if !(ValidTitle(title) && ValidPostText(text)) then Outcome(st, FormInvalid, None)
    else
      var post := NewPost(principal, title, text, now);
      var (st', id) := InsertPost(st, post);
      Outcome(st', Redirect(AbsoluteUrl(methods.absoluteUrl(id, post))), Some(Success(DraftCreatedMessage)))
  }

  /** A created post is a fresh draft of its creator: status code 0, no
      publication date, the submitted title and text, shown in the
      creator's draft list, on no public page, and manageable by the creator
      alone. */
  lemma {:induction false} CreatedPostIsPrivateDraft(st: Store, principal: Option<UserId>, title: string, text: string, now: Time, methods: PostMethods, other: Option<UserId>)
    requires WellFormed(st)
    requires CreateDraft(st, principal, title, text, now, methods).response.Redirect?
    ensures var st' := CreateDraft(st, principal, title, text, now, methods).store;
            var id := st.nextPostId;
            && id !in st.posts && id in st'.posts
            && st'.posts[id].status == Draft && StatusCode(st'.posts[id].status) == 0
            && st'.posts[id].datePub.None? && st'.posts[id].dateEdit == now
            && st'.posts[id].author == principal
            && st'.posts[id].title == title && st'.posts[id].text == text
            && Row(id, st'.posts[id]) in OwnPosts(st', principal.value, Draft)
            && Row(id, st'.posts[id]) !in PostsByPubDate(st', Published)
            && (IsAuthor(other, st'.posts[id]) <==> other == principal)
  {
    var st' := CreateDraft(st, principal, title, text, now, methods).store;
    var id := st.nextPostId;
    assert IsRecord(st', Row(id, st'.posts[id]));
  }

  lemma CreateDraftPreservesInvariants(st: Store, principal: Option<UserId>, title: string, text: string, now: Time, methods: PostMethods)
    requires WellFormed(st) && FieldsValid(st)
    ensures WellFormed(CreateDraft(st, principal, title, text, now, methods).store)
    ensures FieldsValid(CreateDraft(st, principal, title, text, now, methods).store)
  {
  }

  /** The status segment of the own-posts URL. */
  function StatusFromUrl(s: string): (r: Option<Status>)
  {
    if s == "draft" then Some(Draft)
    else if s == "published" then Some(Published)
    else if s == "archived" then Some(Archived)
    else None
  }

  /** The URL segment naming a status. */
  function StatusSlug(s: Status): string
  {
    match s
    case Draft => "draft"
    case Published => "published"
    case Archived => "archived"
  }

  /** The URL map is exactly the inverse of the slugs: a segment selects a
      status iff it is that status's slug, so every other string is a 404. */
  lemma StatusUrlRoundTrip(s: string, t: Status)
    ensures StatusFromUrl(s) == Some(t) <==> s == StatusSlug(t)
    ensures StatusFromUrl(s).None? <==> s !in {"draft", "published", "archived"}
  {
  }

  /** The own-posts queryset: the user's posts with one status, most
      recently edited first. */
  function OwnPosts(st: Store, u: UserId, s: Status): (r: seq<Row>)
    ensures forall row :: row in r <==> IsRecord(st, row) && row.post.author == Some(u) && row.post.status == s
    ensures Distinct(r)
    ensures SortedDesc(r, EditKey)
  {
    SortDesc(AuthoredWithStatus(st, u, s), EditKey)
  }

  /** Page `page` of a user's posts in status `s`, most recently edited
      first, or a 404 past the last page. */
  function OwnPostsPage(st: Store, u: UserId, s: Status, page: int): (r: ListPage<Row>)
    ensures r.Page? || r.ListNotFound?
    ensures r.Page? <==> 1 <= page <= Pagination.NumPages(|OwnPosts(st, u, s)|, PaginateBy)
    ensures r.Page? ==> Pagination.IsPage(OwnPosts(st, u, s), page, PaginateBy, r.items)
    ensures r.Page? ==> |r.items| <= PaginateBy
    ensures r.Page? ==> forall row :: row in r.items ==>
              IsRecord(st, row) && row.post.author == Some(u) && row.post.status == s
    ensures r.Page? ==> SortedDesc(r.items, EditKey)
  {
    var all := OwnPosts(st, u, s);
    match Pagination.Paginate(all, page, PaginateBy)
    case None => ListNotFound
    case Some(items) =>
      Pagination.PageOfListing(all, page, PaginateBy, items);
      Pagination.PageOfSortedListing(all, page, PaginateBy, items, EditKey);
      Page(items)
  }

  /** Every post of a user is on some page of that user's posts in its status. */
  lemma {:induction false} OwnPostIsOnItsStatusPage(st: Store, u: UserId, row: Row) returns (page: int)
    requires IsRecord(st, row) && row.post.author == Some(u)
    ensures OwnPostsPage(st, u, row.post.status, page).Page?
    ensures row in OwnPostsPage(st, u, row.post.status, page).items
  {
    var all := OwnPosts(st, u, row.post.status);
    assert row in all;
    page := Pagination.IndexOf(all, row) / PaginateBy + 1;
    Pagination.ListedItemOnItsPage(all, PaginateBy, row, OwnPostsPage(st, u, row.post.status, page).items);
  }

  /** One page of the signed-in user's posts in the status named by the URL:
      ten at a time, most recently edited first, and a 404 for an unknown
      status or a number past the last page. */
  function UserPostList(st: Store, principal: Option<UserId>, statusSlug: string, page: int): (r: ListPage<Row>)
    ensures r.ListLoginRedirect? <==> principal.None?
    ensures principal.Some? && StatusFromUrl(statusSlug).None? ==> r.ListNotFound?
    ensures r.Page? <==>
              && principal.Some? && StatusFromUrl(statusSlug).Some?
              && 1 <= page <= Pagination.NumPages(|OwnPosts(st, principal.value, StatusFromUrl(statusSlug).value)|, PaginateBy)
    ensures r.Page? ==>
              Pagination.IsPage(OwnPosts(st, principal.value, StatusFromUrl(statusSlug).value), page, PaginateBy, r.items)
    ensures principal.Some? && StatusFromUrl(statusSlug).Some? && page == 1 ==> r.Page?
    ensures r.Page? ==> |r.items| <= PaginateBy
    ensures r.Page? ==> forall row :: row in r.items ==>
              && IsRecord(st, row)
              && row.post.author == principal
              && Some(row.post.status) == StatusFromUrl(statusSlug)
    ensures r.Page? ==> SortedDesc(r.items, EditKey)
  {
    if principal.None? then ListLoginRedirect
    else
      match StatusFromUrl(statusSlug)
      case None => ListNotFound
      case Some(status) => OwnPostsPage(st, principal.value, status, page)
  }

  /** Every post of a user is on some page of that user's list for its status. */
  lemma {:induction false} OwnPostIsOnAListPage(st: Store, u: UserId, row: Row)
    requires IsRecord(st, row) && row.post.author == Some(u)
    ensures exists page ::
              && UserPostList(st, Some(u), StatusSlug(row.post.status), page).Page?
              && row in UserPostList(st, Some(u), StatusSlug(row.post.status), page).items
  {
    var slug := StatusSlug(row.post.status);
    assert StatusFromUrl(slug) == Some(row.post.status) by {
      StatusUrlRoundTrip(slug, row.post.status);
    }
    var page := OwnPostIsOnItsStatusPage(st, u, row);
    assert UserPostList(st, Some(u), slug, page) == OwnPostsPage(st, u, row.post.status, page);
  }

  /** The outcome of the edit and manage pages' access test. */
  datatype Access = Granted(post: Post) | Denied(response: Response)

  /** Access to the edit and manage pages: the post is looked up first (404),
      then the author test runs; a failed test sends an anonymous visitor
      to the login page and refuses a signed-in one. */
  function OwnerAccess(st: Store, principal: Option<UserId>, pk: PostId): (r: Access)
    ensures r.Granted? <==> pk in st.posts && IsAuthor(principal, st.posts[pk])
    ensures r.Granted? ==> r.post == st.posts[pk]
    ensures pk !in st.posts ==> r == Denied(NotFound)
    ensures pk in st.posts && !IsAuthor(principal, st.posts[pk]) && principal.None? ==> r == Denied(LoginRedirect)
    ensures pk in st.posts && !IsAuthor(principal, st.posts[pk]) && principal.Some? ==> r == Denied(PermissionDenied)
  {
    if pk !in st.posts then Denied(NotFound)
    else if st.posts[pk].author == principal && principal.Some? then Granted(st.posts[pk])
    else if principal.None? then Denied(LoginRedirect)
    else Denied(PermissionDenied)
  }

  /** A post whose author is gone is managed by nobody. */
  lemma AuthorlessPostManagedByNobody(st: Store, principal: Option<UserId>, pk: PostId)
    requires pk in st.posts && st.posts[pk].author.None?
    ensures OwnerAccess(st, principal, pk).Denied?
  {
  }

  /** Deleting a user locks everyone out of that user's posts, which stay in
      the database, and changes access to no other post. */
  lemma {:induction false} DeletedUserPostsManagedByNobody(st: Store, u: UserId, principal: Option<UserId>, pk: PostId)
    requires pk in st.posts
    ensures pk in DeleteUser(st, u).posts
    ensures st.posts[pk].author == Some(u) ==> OwnerAccess(DeleteUser(st, u), principal, pk).Denied?
    ensures st.posts[pk].author != Some(u) ==>
              OwnerAccess(DeleteUser(st, u), principal, pk) == OwnerAccess(st, principal, pk)
  {
    var st' := DeleteUser(st, u);
    assert st'.posts[pk].author != Some(u);
    if st.posts[pk].author == Some(u) {
      assert st'.posts[pk] == st.posts[pk].(author := st'.posts[pk].author);
      assert st'.posts[pk].author.None?;
    }
  }

  const PostUpdatedMessage := "Post updated successfully!"

  /** Posting the edit form: only the author may save; the title and text
      are replaced and the edit time stamped; nothing else changes. */
  function UpdatePost(st: Store, principal: Option<UserId>, pk: PostId, title: string, text: string, now: Time, methods: PostMethods): (o: Outcome)
    ensures OwnerAccess(st, principal, pk).Denied? ==>
              o == Outcome(st, OwnerAccess(st, principal, pk).response, None)
    ensures OwnerAccess(st, principal, pk).Granted? && !(ValidTitle(title) && ValidPostText(text)) ==>
              o == Outcome(st, FormInvalid, None)
    ensures OwnerAccess(st, principal, pk).Granted? && ValidTitle(title) && ValidPostText(text) ==>
              o.response.Redirect?
    ensures o.store != st ==> pk in st.posts && IsAuthor(principal, st.posts[pk])
    ensures o.response.Redirect? ==>
              && pk in st.posts
              && o.store.posts == st.posts[pk := st.posts[pk].(title := title, text := text, dateEdit := now)]
              && o.store.comments == st.comments
              && o.store.nextPostId == st.nextPostId && o.store.nextCommentId == st.nextCommentId
              && o.response.target == AbsoluteUrl(methods.absoluteUrl(pk, o.store.posts[pk]))
              && o.message == Some(Success(PostUpdatedMessage))
  {
    match OwnerAccess(st, principal, pk)
    case Denied(response) => Outcome(st, response, None)
    case Granted(post) =>
      if ValidTitle(title) && ValidPostText(text) then
        var edited := post.(title := title, text := text, dateEdit := now);
        Outcome(st.(posts := st.posts[pk := edited]),
                Redirect(AbsoluteUrl(methods.absoluteUrl(pk, edited))),
                Some(Success(PostUpdatedMessage)))
      else
        Outcome(st, FormInvalid, None)
  }

  lemma UpdatePostPreservesInvariants(st: Store, principal: Option<UserId>, pk: PostId, title: string, text: string, now: Time, methods: PostMethods)
    requires WellFormed(st) && FieldsValid(st)
    ensures WellFormed(UpdatePost(st, principal, pk, title, text, now, methods).store)
    ensures FieldsValid(UpdatePost(st, principal, pk, title, text, now, methods).store)
  {
  }

  /** The action segment of the manage URL. */
  datatype Action = Publish | Archivate | Republish | Delete | UnknownAction(name: string)

  function ParseAction(s: string): Action
  {
    if s == "publish" then Publish
    else if s == "archivate" then Archivate
    else if s == "republish" then Republish
    else if s == "delete" then Delete
    else UnknownAction(s)
  }

  function ActionName(a: Action): string
  {
    match a
    case Publish => "publish"
    case Archivate => "archivate"
    case Republish => "republish"
    case Delete => "delete"
    case UnknownAction(name) => name
  }

  /** Parsing loses nothing, and exactly the four spellings are actions:
      an unknown action's name is never one of them (so "archive" is unknown). */
  lemma ActionRoundTrip(s: string, a: Action)
    ensures ActionName(ParseAction(s)) == s
    ensures !a.UnknownAction? ==> ParseAction(ActionName(a)) == a
    ensures ParseAction(s).UnknownAction? <==> s !in {"publish", "archivate", "republish", "delete"}
  {
  }

  const PublishedMessage := "Post published successfully!"
  const ArchivedMessage := "Post archived successfully!"
  const RepublishedMessage := "Post republished successfully!"
  const DeletedMessage := "Post deleted successfully!"

  function ActionNotFoundMessage(name: string): string
  {
    "Action \"" + name + "\" not found."
  }

  /** Saves the post a transition returned and sends the author back to it. */
  function Transition(st: Store, pk: PostId, changed: Post, message: string, methods: PostMethods): Outcome
  {
    Outcome(st.(posts := st.posts[pk := changed]),
            Redirect(AbsoluteUrl(methods.absoluteUrl(pk, changed))),
            Some(Success(message)))
  }

  /** What an owner's action does, case by case, written against the store
      rather than through `Transition`: each named action stores its own
      transition's result under the post's key and changes nothing else;
      delete cascades and returns to the index; any other name changes
      nothing and reports an error. */
  ghost predicate ActionEffect(st: Store, pk: PostId, a: Action, now: Time, methods: PostMethods, o: Outcome)
    requires pk in st.posts
  {
    var post := st.posts[pk];
    match a
    case Publish =>
      && o.store == st.(posts := st.posts[pk := methods.publish(post, now)])
      && o.response == Redirect(AbsoluteUrl(methods.absoluteUrl(pk, methods.publish(post, now))))
      && o.message == Some(Success(PublishedMessage))
    case Archivate =>
      && o.store == st.(posts := st.posts[pk := methods.archivate(post, now)])
      && o.response == Redirect(AbsoluteUrl(methods.absoluteUrl(pk, methods.archivate(post, now))))
      && o.message == Some(Success(ArchivedMessage))
    case Republish =>
      && o.store == st.(posts := st.posts[pk := methods.republish(post, now)])
      && o.response == Redirect(AbsoluteUrl(methods.absoluteUrl(pk, methods.republish(post, now))))
      && o.message == Some(Success(RepublishedMessage))
    case Delete =>
      && o.store == DeletePost(st, pk)
      && o.response == Redirect(IndexUrl)
      && o.message == Some(Success(DeletedMessage))
    case UnknownAction(name) =>
      && o.store == st
      && o.response == Redirect(AbsoluteUrl(methods.absoluteUrl(pk, post)))
      && o.message == Some(Error(ActionNotFoundMessage(name)))
  }

  /** The manage-action view: sign-in required, then the post must exist
      (404), then the requester must be its author (403), then the action
      string picks what happens. */
  function PostAction(st: Store, principal: Option<UserId>, pk: PostId, action: string, now: Time, methods: PostMethods): (o: Outcome)
    ensures principal.None? ==> o == Outcome(st, LoginRedirect, None)
    ensures principal.Some? && pk !in st.posts ==> o == Outcome(st, NotFound, None)
    ensures principal.Some? && pk in st.posts && !IsAuthor(principal, st.posts[pk]) ==>
              o == Outcome(st, PermissionDenied, None)
    ensures pk in st.posts && IsAuthor(principal, st.posts[pk]) ==>
              ActionEffect(st, pk, ParseAction(action), now, methods, o)
  {
    if principal.None? then Outcome(st, LoginRedirect, None)
    else if pk !in st.posts then Outcome(st, NotFound, None)
    else if st.posts[pk].author != principal then Outcome(st, PermissionDenied, None)
    else
      var post := st.posts[pk];
      match ParseAction(action)
      case Publish => Transition(st, pk, methods.publish(post, now), PublishedMessage, methods)
      case Archivate => Transition(st, pk, methods.archivate(post, now), ArchivedMessage, methods)
      case Republish => Transition(st, pk, methods.republish(post, now), RepublishedMessage, methods)
      case Delete => Outcome(DeletePost(st, pk), Redirect(IndexUrl), Some(Success(DeletedMessage)))
      case UnknownAction(name) =>
        Outcome(st, Redirect(AbsoluteUrl(methods.absoluteUrl(pk, post))), Some(Error(ActionNotFoundMessage(name))))
  }

  /** Whatever the action and whatever the transitions do, only the post's
      author can change the database, and a change reaches no other post
      and no other post's comments. */
  lemma {:induction false} PostActionIsConfined(st: Store, principal: Option<UserId>, pk: PostId, action: string, now: Time, methods: PostMethods)
    ensures var o := PostAction(st, principal, pk, action, now, methods);
            && (o.store != st ==> pk in st.posts && IsAuthor(principal, st.posts[pk]))
            && o.store.posts.Keys <= st.posts.Keys
            && (forall id :: id in st.posts && id != pk ==> id in o.store.posts && o.store.posts[id] == st.posts[id])
            && (forall c :: c in st.comments && c.post != pk ==> c in o.store.comments)
            && (forall c :: c in o.store.comments ==> c in st.comments)
  {
    var o := PostAction(st, principal, pk, action, now, methods);
    if pk in st.posts && IsAuthor(principal, st.posts[pk]) {
      assert ActionEffect(st, pk, ParseAction(action), now, methods, o);
    }
  }

  /** The given transitions keep a post's title and text within their limits. */
  ghost predicate TransitionsKeepFields(methods: PostMethods)
  {
    forall p: Post, t: Time :: PostFieldsValid(p) ==>
      && PostFieldsValid(methods.publish(p, t))
      && PostFieldsValid(methods.archivate(p, t))
      && PostFieldsValid(methods.republish(p, t))
  }

  /** No action leaves a comment behind without its post; field limits
      survive as long as the transitions themselves keep them. */
  lemma {:induction false} PostActionPreservesInvariants(st: Store, principal: Option<UserId>, pk: PostId, action: string, now: Time, methods: PostMethods)
    requires WellFormed(st)
    ensures WellFormed(PostAction(st, principal, pk, action, now, methods).store)
    ensures FieldsValid(st) && TransitionsKeepFields(methods) ==>
              FieldsValid(PostAction(st, principal, pk, action, now, methods).store)
  {
    var o := PostAction(st, principal, pk, action, now, methods);
    if pk in st.posts && IsAuthor(principal, st.posts[pk]) {
      assert ActionEffect(st, pk, ParseAction(action), now, methods, o);
      if ParseAction(action).Delete? {
        DeletePostPreservesWellFormed(st, pk);
      }
    }
  }
}
