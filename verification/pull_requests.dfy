/** The fetched data of one repository's open pull requests, as decoded
    from the hosting service's query result, and the per-author views of
    reviews and comments the classifier scans. */
module PullRequests {
  import opened Interactions

  type Login = string

  /** The review states the query asks for; approving reviews are not
      fetched. */
  datatype ReviewState = Commented | ChangesRequested | Dismissed | Pending

  /** An issue comment, and what the scans read of a review: who wrote it,
      when it was published, and its body. */
  datatype Post = Post(author: Login, publishedAt: int, body: string) {
    function AsInteraction(): Interaction {
      Interaction(body, publishedAt)
    }
  }

  datatype Review = Review(author: Login, publishedAt: int, state: ReviewState, body: string) {
    function AsPost(): Post {
      Post(author, publishedAt, body)
    }
  }

  /** Whom a review request targets. Bots and other reviewer kinds match
      neither the user nor the team fragment of the query. */
  datatype Reviewer = User(login: Login, name: string) | Team(teamName: string) | OtherReviewer

  datatype ReviewRequest = ReviewRequest(reviewer: Reviewer, asCodeOwner: bool) {

    /** The Login field of the user fragment as decoded: only a user's
        response carries a login, so it is empty for any other reviewer. */
    function UserLogin(): (r: string)
      ensures reviewer.User? ==> r == reviewer.login
      ensures !reviewer.User? ==> r == ""
    {
      if reviewer.User? then reviewer.login else ""
    }

    /** The Name field of the team fragment as decoded. The decoder fills
        every inline fragment that has a field for a key of the response,
        whatever the reviewer's kind, so a user's display name lands here
        as well as a team's name. */
    function TeamName(): (r: string)
      ensures reviewer.Team? ==> r == reviewer.teamName
      ensures reviewer.User? ==> r == reviewer.name
      ensures reviewer.OtherReviewer? ==> r == ""
    {
      match reviewer
      case User(_, name) => name
      case Team(teamName) => teamName
      case OtherReviewer => ""
    }
  }

  datatype PullRequest = PullRequest(
    number: int,
    permalink: string,
    title: string,
    author: Login,
    comments: seq<Post>,
    reviews: seq<Review>,
    reviewRequests: seq<ReviewRequest>)

  /** The reviews as posts, in the order they are scanned. */
  function ReviewPosts(reviews: seq<Review>): (r: seq<Post>)
    ensures |r| == |reviews|
    ensures forall i :: 0 <= i < |reviews| ==> r[i] == reviews[i].AsPost()
  {
    seq(|reviews|, i requires 0 <= i < |reviews| => reviews[i].AsPost())
  }

  /** The posts written by who, as interactions, in scan order. */
  function PostsBy(posts: seq<Post>, who: Login): (r: seq<Interaction>)
    ensures |r| <= |posts|
    decreases |posts|
  {
    if posts == [] then []
    else
      var last := posts[|posts| - 1];
      PostsBy(posts[..|posts| - 1], who) + (if last.author == who then [last.AsInteraction()] else [])
  }

  /** An interaction is in the view of who exactly when it comes from one
      of the posts written by who. */
  lemma {:induction false} PostsByMembers(posts: seq<Post>, who: Login, x: Interaction)
    ensures x in PostsBy(posts, who) <==>
      exists i :: 0 <= i < |posts| && posts[i].author == who && posts[i].AsInteraction() == x
    decreases |posts|
  {
    if posts != [] {
      var n := |posts|;
      var init := posts[..n - 1];
      PostsByMembers(init, who, x);
      assert forall i :: 0 <= i < n - 1 ==> init[i] == posts[i];
      if x in PostsBy(posts, who) && x !in PostsBy(init, who) {
        assert posts[n - 1].author == who && posts[n - 1].AsInteraction() == x;
      }
    }
  }

  /** The view of a concatenation is the concatenation of the views. */
  lemma {:induction false} PostsByAppend(a: seq<Post>, b: seq<Post>, who: Login)
    ensures PostsBy(a + b, who) == PostsBy(a, who) + PostsBy(b, who)
    decreases |b|
  {
    if b == [] {
      assert a + b == a;
    } else {
      var init := b[..|b| - 1];
      PostsByAppend(a, init, who);
      assert (a + b)[..|a + b| - 1] == a + init;
      assert (a + b)[|a + b| - 1] == b[|b| - 1];
    }
  }

  /** Extending the scanned prefix by one post extends the view of who by
      that post exactly when who wrote it. */
  lemma PostsByStep(posts: seq<Post>, i: nat, who: Login)
    requires i < |posts|
    ensures PostsBy(posts[..i + 1], who) ==
      PostsBy(posts[..i], who) + (if posts[i].author == who then [posts[i].AsInteraction()] else [])
  {
    assert posts[..i + 1][..i] == posts[..i];
  }

  /** One step of the running latest over the view of who: the next post
      replaces the accumulator exactly when who wrote it and it is
      strictly later. */
  lemma PostsScanStep(posts: seq<Post>, i: nat, who: Login, seed: Interaction)
    requires i < |posts|
    ensures var acc := Scan(seed, PostsBy(posts[..i], who));
      Scan(seed, PostsBy(posts[..i + 1], who)) ==
        if posts[i].author == who && acc.Before(posts[i].publishedAt) then posts[i].AsInteraction() else acc
  {
    PostsByStep(posts, i, who);
    if posts[i].author == who {
      ScanStep(seed, PostsBy(posts[..i], who), posts[i].AsInteraction());
    } else {
      assert PostsBy(posts[..i + 1], who) == PostsBy(posts[..i], who);
    }
  }

  /** A post by someone other than who leaves the view of who unchanged,
      wherever it sits. */
  lemma ForeignPostIgnored(before: seq<Post>, after: seq<Post>, p: Post, who: Login)
    requires p.author != who
    ensures PostsBy(before + [p] + after, who) == PostsBy(before + after, who)
  {
    PostsByAppend(before + [p], after, who);
    PostsByAppend(before, [p], who);
    PostsByAppend(before, after, who);
    assert PostsBy([p], who) == PostsBy([], who) + [];
  }

  /** The view of who is non-empty exactly when who wrote one of the
      posts. */
  lemma PostsByNonEmpty(posts: seq<Post>, who: Login)
    ensures PostsBy(posts, who) != [] <==> exists j :: 0 <= j < |posts| && posts[j].author == who
  {
    var r := PostsBy(posts, who);
    if r != [] {
      PostsByMembers(posts, who, r[0]);
    }
    if exists j :: 0 <= j < |posts| && posts[j].author == who {
      var j :| 0 <= j < |posts| && posts[j].author == who;
      PostsByMembers(posts, who, posts[j].AsInteraction());
    }
  }

  /** Position i holds the first post by who at the latest instant among
      who's posts, and that instant is later than zero. */
  predicate FirstLatest(posts: seq<Post>, who: Login, i: int) {
    0 <= i < |posts| && posts[i].author == who && 0 < posts[i].publishedAt &&
    (forall j :: 0 <= j < |posts| && posts[j].author == who ==> posts[j].publishedAt <= posts[i].publishedAt) &&
    (forall j :: 0 <= j < i && posts[j].author == who ==> posts[j].publishedAt < posts[i].publishedAt)
  }

  /** The running latest over the posts by who is at or after each of
      them. */
  lemma LatestPostByBound(posts: seq<Post>, who: Login)
    ensures forall j :: 0 <= j < |posts| && posts[j].author == who ==>
      posts[j].publishedAt <= Latest(PostsBy(posts, who)).at
  {
    var view := PostsBy(posts, who);
    forall j | 0 <= j < |posts| && posts[j].author == who
      ensures posts[j].publishedAt <= Latest(view).at
    {
      PostsByMembers(posts, who, posts[j].AsInteraction());
      var k :| 0 <= k < |view| && view[k] == posts[j].AsInteraction();
    }
  }

  /** A post by who that is later than zero and than every earlier post by
      who is the first at the latest instant. */
  lemma FirstLatestAtEnd(posts: seq<Post>, who: Login)
    requires posts != [] && posts[|posts| - 1].author == who && 0 < posts[|posts| - 1].publishedAt
    requires forall j :: 0 <= j < |posts| - 1 && posts[j].author == who ==>
      posts[j].publishedAt < posts[|posts| - 1].publishedAt
    ensures FirstLatest(posts, who, |posts| - 1)
  {
  }

  /** Appending a post that is not later keeps the first at the latest
      instant where it was. */
  lemma FirstLatestKept(posts: seq<Post>, who: Login, i: int)
    requires posts != [] && FirstLatest(posts[..|posts| - 1], who, i)
    requires posts[|posts| - 1].author == who ==> posts[|posts| - 1].publishedAt <= posts[i].publishedAt
    ensures FirstLatest(posts, who, i)
  {
    assert forall j :: 0 <= j < |posts| - 1 ==> posts[..|posts| - 1][j] == posts[j];
  }

  /** The running latest over all posts is the one over all but the last,
      offered the last post when who wrote it. */
  lemma LatestPostStep(posts: seq<Post>, who: Login)
    requires posts != []
    ensures var prev := Latest(PostsBy(posts[..|posts| - 1], who));
      var last := posts[|posts| - 1];
      Latest(PostsBy(posts, who)) ==
        if last.author == who && prev.Before(last.publishedAt) then last.AsInteraction() else prev
  {
    PostsScanStep(posts, |posts| - 1, who, Zero);
    assert posts[..|posts|] == posts;
  }

  /** The last post replaces the running latest: it is the first post by
      who at the new latest instant. */
  lemma LatestPostNew(posts: seq<Post>, who: Login)
    requires posts != [] && posts[|posts| - 1].author == who
    requires Latest(PostsBy(posts[..|posts| - 1], who)).Before(posts[|posts| - 1].publishedAt)
    ensures FirstLatest(posts, who, |posts| - 1)
  {
    var n := |posts|;
    var init := posts[..n - 1];
    LatestPostByBound(init, who);
    assert forall j :: 0 <= j < n - 1 ==> init[j] == posts[j];
    FirstLatestAtEnd(posts, who);
  }

  /** The running latest over the posts by who is the empty interaction or
      the first post by who at the latest instant. */
  lemma {:induction false} LatestPostIsFirst(posts: seq<Post>, who: Login)
    ensures Latest(PostsBy(posts, who)) == Zero ||
      exists i :: FirstLatest(posts, who, i) && posts[i].AsInteraction() == Latest(PostsBy(posts, who))
    decreases |posts|
  {
    if posts != [] {
      var n := |posts|;
      var init, last := posts[..n - 1], posts[n - 1];
      LatestPostIsFirst(init, who);
      var prev := Latest(PostsBy(init, who));
      LatestPostStep(posts, who);
      if last.author == who && prev.Before(last.publishedAt) {
        LatestPostNew(posts, who);
      } else if prev != Zero {
        var i :| FirstLatest(init, who, i) && init[i].AsInteraction() == prev;
        FirstLatestKept(posts, who, i);
      }
    }
  }

  /** The running latest over the posts by who is at or after each of them,
      and it is either the empty interaction or the first post by who at
      that latest instant. */
  lemma LatestPostBy(posts: seq<Post>, who: Login)
    ensures forall j :: 0 <= j < |posts| && posts[j].author == who ==>
      posts[j].publishedAt <= Latest(PostsBy(posts, who)).at
    ensures Latest(PostsBy(posts, who)) == Zero ||
      exists i :: FirstLatest(posts, who, i) && posts[i].AsInteraction() == Latest(PostsBy(posts, who))
  {
    LatestPostByBound(posts, who);
    LatestPostIsFirst(posts, who);
  }
}
