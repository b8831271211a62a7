/** The sidebar widgets rendered on every page: the five newest published
    posts and the five newest comments on published posts. */
module ContextProcessors {
  import opened Basics
  import opened Queries
  import opened Models

  const RecentCount := 5

  /** The comment belongs to a post that is currently published. */
  predicate OnPublishedPost(st: Store, c: Comment)
  {
    c.post in st.posts && st.posts[c.post].status == Published
  }

  /** The five most recently published posts. */
  function RecentPosts(st: Store): (r: seq<Row>)
    ensures |r| <= RecentCount
    ensures forall row :: row in r ==> IsRecord(st, row) && row.post.status == Published
    ensures Distinct(r)
    ensures SortedDesc(r, PubKey)
    ensures forall x, y :: IsRecord(st, x) && x.post.status == Published && x !in r && y in r ==>
              AtLeast(PubKey(y), PubKey(x))
    ensures |r| < RecentCount ==>
              forall x :: IsRecord(st, x) && x.post.status == Published ==> x in r
  {
    TopK(WithStatus(st, Published), PubKey, RecentCount)
  }

  /** The five newest comments whose post is published. */
  function RecentComments(st: Store): (r: seq<Comment>)
    ensures |r| <= RecentCount
    ensures forall c :: c in r ==> c in st.comments && OnPublishedPost(st, c)
    ensures Distinct(st.comments) ==> Distinct(r)
    ensures SortedDesc(r, CommentKey)
    ensures forall x, y :: x in st.comments && OnPublishedPost(st, x) && x !in r && y in r ==>
              y.datePub >= x.datePub
    ensures |r| < RecentCount ==>
              forall x :: x in st.comments && OnPublishedPost(st, x) ==> x in r
  {
    var published := Filter(st.comments, (c: Comment) => OnPublishedPost(st, c));
    var r := TopK(published, CommentKey, RecentCount);
    forall x, y | x in st.comments && OnPublishedPost(st, x) && x !in r && y in r
      ensures y.datePub >= x.datePub
    {
      assert x in published;
      assert AtLeast(CommentKey(y), CommentKey(x));
    }
    r
  }
}
