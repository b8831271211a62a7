/**
  The blog's two tables and the rules their columns impose: `Post` (with
  the Draft/Published/Archived status code), `Comment` (cascaded away with
  its post), the field limits the model forms check, and the effect of
  deleting a post or a user on the stored rows.
*/
module Models {
  import opened Basics
  import opened Queries

  type UserId = nat
  type PostId = nat
  type CommentId = nat
  /** A timestamp, supplied by the caller in place of the clock. */
  type Time = int

  datatype Status = Draft | Published | Archived

  /** The small integer stored in the `status` column. */
  function StatusCode(s: Status): nat
  {
    match s
    case Draft => 0
    case Published => 1
    case Archived => 2
  }

  /** Reads a `status` column back; only the three declared choices decode. */
  function StatusFromCode(code: int): (r: Option<Status>)
    ensures r.Some? <==> 0 <= code <= 2
    ensures r.Some? ==> StatusCode(r.value) == code
  {
    if code == 0 then Some(Draft)
    else if code == 1 then Some(Published)
    else if code == 2 then Some(Archived)
    else None
  }

  /** Every status survives a trip through its column code, and distinct
      statuses have distinct codes. */
  lemma StatusCodeRoundTrip(s: Status, t: Status)
    ensures StatusFromCode(StatusCode(s)) == Some(s)
    ensures StatusCode(s) == StatusCode(t) ==> s == t
  {
  }

  const TitleMaxLength := 160
  const CommentNameMaxLength := 30
  const CommentTextMaxLength := 250

  /** A row of the post table, without its primary key. */
  datatype Post = Post(
    author: Option<UserId>,
    status: Status,
    title: string,
    text: string,
    datePub: Option<Time>,
    dateEdit: Time)

  /** A row of the comment table; `post` is the foreign key. */
  datatype Comment = Comment(
    id: CommentId,
    post: PostId,
    name: string,
    text: string,
    datePub: Time)

  /** A post together with its primary key, as a queryset yields it. */
  datatype Row = Row(id: PostId, post: Post)

  /** The null character, which every Django (2.0 and later) form
      `CharField` refuses through `ProhibitNullCharactersValidator`. */
  const Nul: char := '\0'

  /** `title`: required (`blank=False`), at most 160 characters, no NUL. */
  predicate ValidTitle(t: string)
  {
    0 < |t| <= TitleMaxLength && Nul !in t
  }

  /** `text`: a `TextField` without `blank=True`, so required; no NUL. */
  predicate ValidPostText(t: string)
  {
    0 < |t| && Nul !in t
  }

  predicate ValidCommentName(n: string)
  {
    0 < |n| <= CommentNameMaxLength && Nul !in n
  }

  predicate ValidCommentText(t: string)
  {
    0 < |t| <= CommentTextMaxLength && Nul !in t
  }

  /** The post satisfies the limits its form enforces. */
  predicate PostFieldsValid(p: Post)
  {
    ValidTitle(p.title) && ValidPostText(p.text)
  }

  /** The comment satisfies the limits its form enforces. */
  predicate CommentFieldsValid(c: Comment)
  {
    ValidCommentName(c.name) && ValidCommentText(c.text)
  }

  /** A post as the create form saves it: the author and the two form
      fields set, every other column at its default. */
  function NewPost(author: Option<UserId>, title: string, text: string, now: Time): Post
  {
    Post(author, Draft, title, text, None, now)
  }

  /** The `Post` methods the views call whose bodies are not part of this
      model (`publish`, `archivate`, `republish`, `get_absolute_url`). They
      are taken as given functions; nothing is assumed about their guards
      or about the dates they set. */
  datatype PostMethods = PostMethods(
    publish: (Post, Time) -> Post,
    archivate: (Post, Time) -> Post,
    republish: (Post, Time) -> Post,
    absoluteUrl: (PostId, Post) -> string)

  /** The database: the post table keyed by id, the comment table, and the
      next values of the two auto-increment keys. */
  datatype Store = Store(
    posts: map<PostId, Post>,
    comments: seq<Comment>,
    nextPostId: PostId,
    nextCommentId: CommentId)

  /** The database's own guarantees: every comment references an existing
      post, keys were handed out by the counters, comment keys are unique. */
  ghost predicate WellFormed(st: Store)
  {
    && (forall id :: id in st.posts ==> id < st.nextPostId)
    && (forall c :: c in st.comments ==> c.post in st.posts && c.id < st.nextCommentId)
    && Distinct(st.comments)
    && (forall c, d :: c in st.comments && d in st.comments && c.id == d.id ==> c == d)
  }

  /** Every stored row satisfies its form's field limits. The database does
      not check these itself; they hold because every write goes through a
      validated form. */
  ghost predicate FieldsValid(st: Store)
  {
    && (forall id :: id in st.posts ==> PostFieldsValid(st.posts[id]))
    && (forall c :: c in st.comments ==> CommentFieldsValid(c))
  }

  /** `row` is a record actually held in the post table. */
  ghost predicate IsRecord(st: Store, row: Row)
  {
    row.id in st.posts && st.posts[row.id] == row.post
  }

  lemma {:induction false} MinExists(s: set<PostId>)
    requires s != {}
    ensures exists k :: k in s && forall j :: j in s ==> k <= j
  {
    var x :| x in s;
    if s - {x} == {} {
      forall j | j in s ensures x <= j {
        assert j !in s - {x};
      }
      assert x in s && forall j :: j in s ==> x <= j;
    } else {
      MinExists(s - {x});
      var m :| m in s - {x} && forall j :: j in s - {x} ==> m <= j;
      var k := if x < m then x else m;
      forall j | j in s ensures k <= j {
        if j != x {
          assert j in s - {x};
        }
      }
      assert k in s && forall j :: j in s ==> k <= j;
    }
  }

  /** The smallest key of a non-empty key set. */
  function MinKey(s: set<PostId>): (k: PostId)
    requires s != {}
    ensures k in s && forall j :: j in s ==> k <= j
  {
    MinExists(s);
    var k :| k in s && forall j :: j in s ==> k <= j;
    k
  }

  /** The rows are in strictly increasing primary-key order. */
  ghost predicate KeyOrdered(rows: seq<Row>)
  {
    forall i, j :: 0 <= i < j < |rows| ==> rows[i].id < rows[j].id
  }

  /** The whole post table as a list of rows, in key order (stated by
      `RowsKeyOrdered`). */
  function Rows(posts: map<PostId, Post>): (r: seq<Row>)
    ensures forall row :: row in r <==> row.id in posts && posts[row.id] == row.post
    ensures Distinct(r)
    decreases |posts|
  {
    if |posts| == 0 then []
    else
      var k := MinKey(posts.Keys);
      var rest := posts - {k};
      assert |rest| < |posts| by {
        assert rest.Keys == posts.Keys - {k};
      }
      var tail := Rows(rest);
      assert Row(k, posts[k]) !in tail;
      [Row(k, posts[k])] + tail
  }

  function PubKey(row: Row): Option<Time>
  {
    row.post.datePub
  }

  function EditKey(row: Row): Option<Time>
  {
    Some(row.post.dateEdit)
  }

  function CommentKey(c: Comment): Option<Time>
  {
    Some(c.datePub)
  }

  /** The table's rows come in strictly increasing primary-key order. */
  lemma {:induction false} RowsKeyOrdered(posts: map<PostId, Post>)
    ensures KeyOrdered(Rows(posts))
    decreases |posts|
  {
    if |posts| > 0 {
      var k := MinKey(posts.Keys);
      var rest := posts - {k};
      assert |rest| < |posts| by {
        assert rest.Keys == posts.Keys - {k};
      }
      RowsKeyOrdered(rest);
      forall row | row in Rows(rest)
        ensures k < row.id
      {
        assert row.id in rest;
      }
      PrependKeyOrdered(Row(k, posts[k]), Rows(rest));
    }
  }

  /** A row whose key is below every key of a key-ordered list can head it. */
  lemma PrependKeyOrdered(x: Row, rest: seq<Row>)
    requires KeyOrdered(rest)
    requires forall row :: row in rest ==> x.id < row.id
    ensures KeyOrdered([x] + rest)
  {
    var r := [x] + rest;
    forall i, j | 0 <= i < j < |r|
      ensures r[i].id < r[j].id
    {
      assert r[j] == rest[j - 1];
      if i > 0 {
        assert r[i] == rest[i - 1];
      }
    }
  }

  /** Filtering a key-ordered list of rows keeps it key-ordered. */
  lemma {:induction false} FilterKeepsKeyOrder(rows: seq<Row>, keep: Row -> bool)
    requires KeyOrdered(rows)
    ensures KeyOrdered(Filter(rows, keep))
  {
    if |rows| > 0 {
      var tail := rows[1..];
      var rest := Filter(tail, keep);
      FilterKeepsKeyOrder(tail, keep);
      if keep(rows[0]) {
        forall row | row in rest
          ensures rows[0].id < row.id
        {
          assert row in tail;
          var j :| 0 <= j < |tail| && tail[j] == row;
          assert rows[j + 1] == row;
        }
        PrependKeyOrdered(rows[0], rest);
        assert Filter(rows, keep) == [rows[0]] + rest;
      } else {
        assert Filter(rows, keep) == rest;
      }
    }
  }

  /** `Post.objects.filter(status=s)`: the posts with that status, unordered. */
  function WithStatus(st: Store, s: Status): (r: seq<Row>)
    ensures forall row :: row in r <==> IsRecord(st, row) && row.post.status == s
    ensures Distinct(r)
  {
    Filter(Rows(st.posts), (row: Row) => row.post.status == s)
  }

  /** `Post.objects.filter(status=s).order_by('-date_pub')`. */
  function PostsByPubDate(st: Store, s: Status): (r: seq<Row>)
    ensures forall row :: row in r <==> IsRecord(st, row) && row.post.status == s
    ensures Distinct(r)
    ensures SortedDesc(r, PubKey)
  {
    SortDesc(WithStatus(st, s), PubKey)
  }

  /** `queryset.get(pk=pk)`: the post of the queryset's row with key `pk`,
      or `None` when there is none (`DoesNotExist`, a 404 in a view). */
  function GetByPk(rows: seq<Row>, pk: PostId): (r: Option<Post>)
    ensures r.Some? ==> Row(pk, r.value) in rows
    ensures r.None? ==> forall row :: row in rows ==> row.id != pk
  {
    if |rows| == 0 then None
    else if rows[0].id == pk then Some(rows[0].post)
    else GetByPk(rows[1..], pk)
  }

  /** `user.posts.filter(status=s)`: the user's posts with that status,
      unordered (see `AuthoredKeyOrdered` for the order the model uses). */
  function AuthoredWithStatus(st: Store, u: UserId, s: Status): (r: seq<Row>)
    ensures forall row :: row in r <==> IsRecord(st, row) && row.post.author == Some(u) && row.post.status == s
    ensures Distinct(r)
  {
    Filter(Rows(st.posts), (row: Row) => row.post.author == Some(u) && row.post.status == s)
  }

  /** Django leaves an unordered queryset's order to the database; the model
      lists a user's posts in increasing primary-key order. */
  lemma AuthoredKeyOrdered(st: Store, u: UserId, s: Status)
    ensures KeyOrdered(AuthoredWithStatus(st, u, s))
  {
    RowsKeyOrdered(st.posts);
    FilterKeepsKeyOrder(Rows(st.posts), (row: Row) => row.post.author == Some(u) && row.post.status == s);
  }

  /** The comment belongs to post `pk`. */
  function OnPost(pk: PostId): Comment -> bool
  {
    (c: Comment) => c.post == pk
  }

  /** `post.comments.all()`: the post's comments under the table's default
      ordering, newest first. */
  function CommentsOf(st: Store, pk: PostId): (r: seq<Comment>)
    ensures forall c :: multiset(r)[c] == if c.post == pk then multiset(st.comments)[c] else 0
    ensures forall c :: c in r <==> c in st.comments && c.post == pk
    ensures SortedDesc(r, CommentKey)
  {
    SortDesc(Filter(st.comments, OnPost(pk)), CommentKey)
  }

  /** Inserts a post under the next auto-increment key. */
  function InsertPost(st: Store, p: Post): (r: (Store, PostId))
    ensures r.1 == st.nextPostId
    ensures WellFormed(st) ==> r.1 !in st.posts
    ensures r.0.posts == st.posts[r.1 := p]
    ensures r.0.comments == st.comments && r.0.nextCommentId == st.nextCommentId
    ensures r.0.nextPostId > r.1
  {
    (st.(posts := st.posts[st.nextPostId := p], nextPostId := st.nextPostId + 1), st.nextPostId)
  }

  /** Inserts a comment under the next auto-increment key. */
  function InsertComment(st: Store, pk: PostId, name: string, text: string, now: Time): (r: Store)
    ensures r.posts == st.posts
    ensures |r.comments| == |st.comments| + 1 && r.comments[..|st.comments|] == st.comments
    ensures r.comments[|st.comments|] == Comment(st.nextCommentId, pk, name, text, now)
    ensures r.nextCommentId > st.nextCommentId && r.nextPostId == st.nextPostId
  {
    st.(comments := st.comments + [Comment(st.nextCommentId, pk, name, text, now)],
        nextCommentId := st.nextCommentId + 1)
  }

  /** A comment stored on an existing post with valid fields keeps both
      invariants. */
  lemma InsertCommentPreservesInvariants(st: Store, pk: PostId, name: string, text: string, now: Time)
    requires WellFormed(st) && FieldsValid(st)
    requires pk in st.posts && ValidCommentName(name) && ValidCommentText(text)
    ensures WellFormed(InsertComment(st, pk, name, text, now))
    ensures FieldsValid(InsertComment(st, pk, name, text, now))
  {
    var c0 := Comment(st.nextCommentId, pk, name, text, now);
    var st' := InsertComment(st, pk, name, text, now);
    assert st'.comments == st.comments + [c0];
    assert c0 !in st.comments;
    forall c | c in st'.comments ensures c in st.comments || c == c0 {
    }
  }

  /** `post.delete()`: the post row goes, and `on_delete=CASCADE` takes
      every comment of that post with it. */
  function DeletePost(st: Store, pk: PostId): (r: Store)
    ensures r.posts.Keys == st.posts.Keys - {pk}
    ensures forall id :: id in r.posts ==> r.posts[id] == st.posts[id]
    ensures forall c :: c in r.comments <==> c in st.comments && c.post != pk
    ensures forall c :: multiset(r.comments)[c] == if c.post == pk then 0 else multiset(st.comments)[c]
    ensures r.nextPostId == st.nextPostId && r.nextCommentId == st.nextCommentId
  {
    st.(posts := st.posts - {pk}, comments := Filter(st.comments, (c: Comment) => c.post != pk))
  }

  /** Deleting a user: `on_delete=SET_NULL` keeps each of the user's posts
      and clears its author. */
  function DeleteUser(st: Store, u: UserId): (r: Store)
    ensures r.posts.Keys == st.posts.Keys
    ensures forall id :: id in r.posts ==> r.posts[id].author != Some(u)
    ensures forall id :: id in r.posts && st.posts[id].author == Some(u) ==> r.posts[id].author.None?
    ensures forall id :: id in r.posts ==>
              r.posts[id] == st.posts[id].(author := r.posts[id].author)
    ensures forall id :: id in r.posts && st.posts[id].author != Some(u) ==>
              r.posts[id] == st.posts[id]
    ensures r.comments == st.comments
    ensures r.nextPostId == st.nextPostId && r.nextCommentId == st.nextCommentId
  {
    var posts := map id | id in st.posts ::
      if st.posts[id].author == Some(u) then st.posts[id].(author := None) else st.posts[id];
    st.(posts := posts)
  }

  /** Deleting a post never leaves a comment pointing at it. */
  lemma DeletePostPreservesWellFormed(st: Store, pk: PostId)
    requires WellFormed(st)
    ensures WellFormed(DeletePost(st, pk))
    ensures FieldsValid(st) ==> FieldsValid(DeletePost(st, pk))
  {
  }

  lemma DeleteUserPreservesWellFormed(st: Store, u: UserId)
    requires WellFormed(st)
    ensures WellFormed(DeleteUser(st, u))
    ensures FieldsValid(st) ==> FieldsValid(DeleteUser(st, u))
  {
  }
}
