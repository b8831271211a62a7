# Blog domain rules — a Dafny model

This project models the domain core of a small Django blog. Authors write
posts that move through Draft, Published and Archived. Anyone can read
published posts and comment on them. Signed-in readers can browse the
archive, and only a post's author can edit it, manage it or run an
action on it.

The model is functional. The database is a value: a `Store` holding the
post table as `map<PostId, Post>`, the comment table as a sequence, and the
two auto-increment counters. Every view is a pure function from the store,
the principal (`Option<UserId>`, `None` for an anonymous visitor) and the
request's inputs to a result. Commands return an `Outcome`: the store
afterwards, a response (`NotFound`, `PermissionDenied`, `LoginRedirect`,
`FormInvalid` or `Redirect(target)`) and the flash message queued. List
views return one page of rows.

Modules follow the source files:

- `Models` (`blog_app/models.py`): the status codes, the two record types,
  the field limits, the cascade on post delete, the author-nulling on user
  delete, the comment ordering, and the store's integrity invariant
  `WellFormed` and field invariant `FieldsValid`.
- `PublicViews`, `ArchiveViews`, `UserViews` (`blog_app/views/*.py`): the
  read paths with their visibility filters, the comment form, the
  create/edit forms, the ownership test and the action dispatcher.
- `ContextProcessors` (`blog_app/context_processors.py`): the two top-5
  sidebar selections.
- `LegacyViews` (`blog_app/views.py`): the earlier single-module revision.
  Its index, detail, comment, create, edit, manage, archive-detail and
  action views are textually the same code as the current revision, so the
  members of `PublicViews`, `ArchiveViews` and `UserViews` model them too.
  Only `DraftListView` is different, and it is modelled separately.
- `Queries`, `Pagination`, `Basics`: generic support code. This covers
  `filter`, a descending `order_by`, `[:k]` slicing, the `paginate_by`
  paginator, and `Option`.

`Post.publish`, `Post.archivate`, `Post.republish` and
`Post.get_absolute_url` are called by the views, but their bodies are not
part of this model. They are passed in as the `PostMethods` record of pure
functions: a transition maps the post and the current time to a new post.
The view itself only calls the method and never saves. The model assumes
that each method saves exactly the post it returns, under the same key.
The dispatcher's properties hold for every choice of such functions. A
method that writes other rows, or that changes the instance without saving
it, is outside this model.

Ordering follows the database. A descending `order_by` on a nullable date
lists NULL last, which is the SQLite convention. Rows with equal keys may
come in any order. So the query functions' contracts state exact
membership, no repetition and sortedness, not one particular permutation.
Paging then fixes one order. Each list view's pages are slices of a single
sequence, the query's result, and every page request is assumed to see
that same sequence. Where the sort key ties, the sequence the model uses is one particular
order, and the page-completeness lemmas rely on it. Unordered querysets
list rows in primary-key order (`Models.RowsKeyOrdered`,
`Models.FilterKeepsKeyOrder`).

Facts about the code that the model follows:

- The archive action is spelled `archivate`. Only four action names
  exist, and any other name is reported as an error with the post
  unchanged.
- Delete has no status guard. An owner can delete a post in any status.
- The views do not check transition guards (e.g. publish only from Draft)
  or when `date_pub` is set. Those rules would live in the `Post` methods,
  which are not modelled, so the model does not state them.
- A request from an anonymous visitor that fails the edit/manage author
  test is redirected to login, not refused with 403. A missing post is a
  404 before either.
- The archive list needs a signed-in reader. The archive detail page does
  not.
- The model assumes Django 2.1 or later. There, a signed-in user who
  fails the edit/manage author test gets 403 from `handle_no_permission`;
  Django 2.0 would redirect them to login instead.
- Every form `CharField` (Django 2.0 and later) refuses a value containing
  the null character, so the field predicates (`Models.ValidTitle` and the
  others) reject NUL along with the length limits.
- A detail page is `get(pk=…)` on a queryset filtered by status, so a post
  in the wrong status is a 404 just like a missing one.

## Model

| member | source | states |
|---|---|---|
| Models.StatusFromCode | blog_app/models.py:11-16 | Exactly the codes 0, 1 and 2 decode to a status. A decoded status encodes back to the same code. |
| Models.StatusCodeRoundTrip | blog_app/models.py:11-16 | Draft=0, Published=1 and Archived=2 survive a trip through the column, and no two statuses share a code. |
| Models.CommentsOf | blog_app/models.py:45-64 | A post's comment list holds exactly that post's comments, each as often as stored, newest `date_pub` first. |
| Models.DeletePost | blog_app/models.py:47-50 | Deleting a post removes it and every comment on it. Every other post and every other comment (with its multiplicity) stays. |
| Models.DeleteUser | blog_app/models.py:19-24 | Deleting a user keeps every post. Each of the user's posts has its author set to NULL, and nothing else in the store changes. |
| Models.DeletePostPreservesWellFormed | blog_app/models.py:47-50 | Because of the cascade, no comment is left referencing the deleted post. Key and field invariants still hold. |
| Models.DeleteUserPreservesWellFormed | blog_app/models.py:19-24 | Nulling authors keeps the store's integrity and field invariants. |
| PublicViews.IndexQuery | blog_app/views/public.py:26-35 | The index lists every Published post exactly once and nothing else, in non-increasing `date_pub` order. |
| PublicViews.Index | blog_app/views/public.py:17-35 | Index page `n` exists iff 1 <= n <= the page count (page 1 always exists; any other number is a 404). It is exactly the 10 index entries starting at position 10(n-1), or the rest of the index on the last page: all Published, in index order. |
| PublicViews.PublishedPostIsOnAnIndexPage | blog_app/views/public.py:24-35 | Every Published post appears on some page of the index. |
| PublicViews.Detail | blog_app/views/public.py:38-50 | Modelled as `get(pk)` on the Published-only queryset. It follows that the page finds a post iff the post exists and is Published, and it shows that stored post. Draft and Archived posts are a 404. |
| PublicViews.DetailIffIndexed | blog_app/views/public.py:26-50 | A post has a public detail page exactly when the index lists it. |
| PublicViews.AddComment | blog_app/views/public.py:53-79 | A valid comment on an existing Published post always succeeds. Exactly one comment is appended with the selected post, the submitted name and text, and the current time, and the response redirects to that post's URL. A missing or non-Published post is a 404. Invalid fields (empty, too long, or containing NUL) are refused, both with nothing inserted. The same code is in blog_app/views.py:53-79. |
| Models.InsertCommentPreservesInvariants | blog_app/models.py:45-59 | Storing a comment with valid fields on an existing post keeps the key and field invariants. |
| PublicViews.AddCommentPreservesInvariants | blog_app/models.py:45-59 | A stored comment always references an existing post, has a fresh key, and meets its name (1-30) and text (1-250) limits. |
| PublicViews.CommentsOfAfterInsert | blog_app/views/public.py:74-76 | A new comment adds exactly one entry to its post's comment list. |
| PublicViews.AddedCommentListedFirst | blog_app/models.py:58-64 | After any successful comment, the post's comment count rises by one. When in addition the clock is past every comment on that post, the new comment heads the newest-first list. |
| PublicViews.NewCommentHeadsItsPost | blog_app/models.py:58-64 | When the clock is past every comment on the post, a newly stored comment is first in its post's newest-first list. |
| ArchiveViews.ArchiveQuery | blog_app/views/archive.py:26-31 | The archive lists every Archived post exactly once and nothing else, in non-increasing `date_pub` order. |
| ArchiveViews.ArchiveList | blog_app/views/archive.py:17-31 | The archive list is a login redirect iff the reader is anonymous. For a signed-in reader, page `n` exists iff 1 <= n <= the page count. It is exactly the 10 archive entries starting at position 10(n-1), all Archived, in archive order. |
| ArchiveViews.ArchivedPostIsOnAnArchivePage | blog_app/views/archive.py:17-31 | A signed-in reader finds every Archived post on some archive page. |
| ArchiveViews.ArchiveDetail | blog_app/views/archive.py:34-46 | Modelled as `get(pk)` on the Archived-only queryset. It follows that the page finds a post iff the post exists and is Archived, and it shows that stored post. |
| ArchiveViews.ArchiveDetailIffListed | blog_app/views/archive.py:26-46 | A post has an archive detail page exactly when the archive list holds it. |
| ArchiveViews.DetailPagesPartitionByStatus | blog_app/views/archive.py:38-46 | Neither detail page shows a Draft. The public page alone shows a Published post, and the archive page alone shows an Archived one. |
| ContextProcessors.RecentPosts | blog_app/context_processors.py:4-11 | At most 5 distinct Published posts, newest `date_pub` first. No omitted Published post is newer than a returned one, and with fewer than 5 returned, all are returned. |
| ContextProcessors.RecentComments | blog_app/context_processors.py:14-22 | At most 5 comments, all on Published posts, newest first. No omitted comment on a Published post is newer than a returned one, and with fewer than 5 returned, all are returned. |
| UserViews.CreateDraft | blog_app/views/user.py:17-25 | A signed-in user's valid form always succeeds. One post is added under the next key with that user as author, the post counter advances, nothing else changes, and the response redirects to it. Anonymous users go to login, and an invalid title or text (empty, too long, or containing NUL) saves nothing. The same code is in blog_app/views.py:87-95. |
| UserViews.CreatedPostIsPrivateDraft | blog_app/models.py:25-35 | A created post is new, has status Draft (code 0), has no `date_pub`, and keeps the submitted title and text. It is in its author's draft list and not on the index, and only its author can manage it. |
| UserViews.CreateDraftPreservesInvariants | blog_app/models.py:30-31 | Creating a post keeps the key invariants. Every stored title stays 1-160 characters and every text non-empty. |
| UserViews.StatusUrlRoundTrip | blog_app/views/user.py:42-52 | A URL segment selects a status iff it is `draft`, `published` or `archived` for that status. Every other string selects none (a 404). |
| UserViews.OwnPosts | blog_app/views/user.py:54-57 | The own-posts list holds exactly the user's posts with the chosen status, each once, in non-increasing `date_edit` order. |
| UserViews.UserPostList | blog_app/views/user.py:28-59 | Anonymous users go to login, and an unknown status segment is a 404. Otherwise page `n` exists iff 1 <= n <= the page count of the requester's own posts in that status. It is exactly the 10 such posts starting at position 10(n-1), most recently edited first. |
| UserViews.OwnPostsPage | blog_app/views/user.py:54-59 | Page `n` of a user's posts in one status exists iff 1 <= n <= their page count. It is exactly the 10 posts starting at position 10(n-1) of the `-date_edit` ordering. |
| UserViews.OwnPostIsOnItsStatusPage | blog_app/views/user.py:54-59 | Every post of a user is on some existing page of that user's posts in its status. |
| UserViews.OwnPostIsOnAListPage | blog_app/views/user.py:28-59 | Every post of a user is on some page of that user's list for the post's status. |
| UserViews.OwnerAccess | blog_app/views/user.py:62-87 | Edit and manage access is granted iff the post exists and its author is the signed-in requester. A missing post is a 404, and otherwise a failed test is a login redirect or a 403. The same code is in blog_app/views.py:113-153. |
| UserViews.AuthorlessPostManagedByNobody | blog_app/views/user.py:67-73 | A post without an author is denied to every principal, anonymous or not. |
| UserViews.DeletedUserPostsManagedByNobody | blog_app/models.py:19-24 | After a user is deleted, their posts remain but nobody can manage them. Access to every other post is unchanged. |
| UserViews.UpdatePost | blog_app/views/user.py:62-73 | The author's valid edit always succeeds. It replaces title and text, stamps `date_edit`, changes nothing else (no other row, no key counter) and redirects to the post. Only the author can save. Denials and invalid forms (an empty, too long or NUL-containing title or text) leave the store unchanged. |
| UserViews.UpdatePostPreservesInvariants | blog_app/models.py:30-31 | Editing keeps the key invariants and the title and text limits. |
| UserViews.ActionRoundTrip | blog_app/views/user.py:101-118 | Action parsing loses nothing. Exactly `publish`, `archivate`, `republish` and `delete` are actions, and `archive` is not. |
| UserViews.PostAction | blog_app/views/user.py:90-121 | The checks run in order: login first, then a missing post is NotFound, then a non-author (including for an author-less post) gets PermissionDenied. Each of these leaves the store unchanged. For the author, each named action applies exactly its own transition and redirects to the post. `delete` cascades and redirects to the index. Any other name changes nothing, reports an error and redirects to the post. The same code is in blog_app/views.py:156-184. |
| UserViews.PostActionIsConfined | blog_app/views/user.py:96-121 | For every choice of pure transition functions, only the post's author can change the store. No other post and no other post's comments are touched, and no row is created. |
| UserViews.PostActionPreservesInvariants | blog_app/views/user.py:113-117 | No action leaves a comment without its post. Field limits survive whenever the transitions keep them. |
| LegacyViews.DraftList | blog_app/views.py:98-110 | Anonymous users go to login. Otherwise page `n` exists iff 1 <= n <= the page count of the requester's drafts. It is exactly the 10 drafts starting at position 10(n-1) of the unordered queryset, and nothing else. |
| LegacyViews.DraftIsOnADraftPage | blog_app/views.py:98-110 | Every draft of a user is on some page of that user's draft list. |
| Models.FilterKeepsKeyOrder | blog_app/views.py:107-110 | Filtering a queryset listed in increasing primary-key order keeps that order among the rows it keeps. |
| Models.AuthoredKeyOrdered | blog_app/views.py:107-110 | A user's posts in one status, a queryset without `order_by`, are listed in strictly increasing primary-key order. |
| LegacyViews.DraftPageKeyOrdered | blog_app/views.py:107-110 | The queryset has no `order_by`; the model lists drafts in primary-key order, so every draft page is in strictly increasing key order. |
| LegacyViews.DraftListMatchesUserPostList | blog_app/views.py:107-110 | The old draft list and the new own-posts list for `draft` select the same posts with the same multiplicities. Only their order differs. |

## Left out

- `Post.publish`, `Post.archivate`, `Post.republish`, `Post.get_absolute_url`: their bodies are not part of this model. They are opaque parameters. So transition guards, the `date_pub` rule ("absent iff Draft", kept on republish) and a status-dependent canonical URL are not stated. The model also treats these methods as total, so an exception raised inside one is not modelled. It assumes each method saves the post it returns. A method that changes the instance without saving it is not modelled: in that case the row would stay unchanged, while the redirect URL would be computed from the changed instance.
- LegacyViews.DraftList: pages are slices of one order shared by all requests, and for the draft queryset, which has no `order_by`, the model uses primary-key order (stated by `LegacyViews.DraftPageKeyOrdered`). The database may return an unordered queryset in a different order on each request, so a draft could be skipped or repeated across pages. The same assumption covers ties of `date_pub`/`date_edit` in the other list views.
- UserViews.PostActionIsConfined: confinement is claimed only for transitions that are pure functions from the post to a new post. A `Post` method that writes other rows, or that has effects beyond its returned value, is not covered.
- UserViews.PostActionPreservesInvariants: the field limits are claimed only under the hypothesis that the transitions keep them, because their bodies are not part of this model.
- Authentication and sessions: the principal is an explicit `Option<UserId>`, and every login bounce is the single response `LoginRedirect`.
- The messages framework, templates and HTTP response objects: a command's result is reduced to the `Outcome` record. GET requests that only render a form (`get_context_data`) are not modelled.
- `select_related`/`prefetch_related`: query hints with no effect on results.
- Pagination input: the page number arrives as an integer. The `last` keyword and non-numeric page strings (a 404) are not modelled.
- `timezone.now`, `auto_now`, `auto_now_add`: timestamps are integers supplied by the caller.
- Tie order of equal sort keys is unspecified and not modelled. NULL dates sort last in descending order, as SQLite does; PostgreSQL lists them first.
- PublicViews.AddComment: Django's form fields strip surrounding whitespace, check the stripped value, and store the stripped value (a submitted name `" Alice "` is saved as `"Alice"`). The model checks and stores the submitted name and text verbatim, so a whitespace-only value is accepted and padding is kept.
- UserViews.CreateDraft: the same whitespace stripping of title and text is not modelled; the submitted strings are checked and stored as given.
- UserViews.UpdatePost: the same whitespace stripping of title and text is not modelled; the submitted strings are checked and stored as given.
- The display labels of the status choices: they are presentation only.
- Concurrent requests on the same post: this depends on the database's transactions.
- `blog_app/urls.py` (routing only) and `blog_app/admin.py` (admin registration only).
