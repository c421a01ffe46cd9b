/** The two reports: the pull requests I authored, and the pull requests I
    engaged with, each tagged with who spoke last between me and the
    author. */
module Classifier {
  import opened Interactions
  import opened PullRequests
  import opened Snippets

  datatype Option<T> = None | Some(value: T)

  /** Responded: the ball is in the author's court. AwaitingMe: the author
      spoke after my latest review or comment. */
  datatype Status = Responded | AwaitingMe

  /** The indented line under an engaged pull request. */
  datatype Snippet = Snippet(speaker: Login, text: string)

  /** One line of the engagement report, with its optional snippet. */
  datatype Engagement = Engagement(
    status: Status,
    number: int,
    title: string,
    permalink: string,
    snippet: Option<Snippet>)

  /** One line of the authored report. */
  datatype AuthoredLine = AuthoredLine(number: int, permalink: string)

  /** The one team whose review requests count as requests to me. */
  const BackendTeam: string := "Backend"

  /** The reviews followed by the issue comments: the order in which my
      running latest meets them. */
  function MyPosts(pr: PullRequest): seq<Post> {
    ReviewPosts(pr.reviews) + pr.comments
  }

  /** My reviews, then my issue comments, in the order they are scanned. */
  function MyInteractions(pr: PullRequest, me: Login): seq<Interaction> {
    PostsBy(MyPosts(pr), me)
  }

  /** The author's issue comments; reviews never feed the author's side. */
  function AuthorInteractions(pr: PullRequest): seq<Interaction> {
    PostsBy(pr.comments, pr.author)
  }

  predicate HasReviewed(pr: PullRequest, me: Login) {
    exists i :: 0 <= i < |pr.reviews| && pr.reviews[i].author == me
  }

  predicate HasCommented(pr: PullRequest, me: Login) {
    exists i :: 0 <= i < |pr.comments| && pr.comments[i].author == me
  }

  predicate TargetsMe(request: ReviewRequest, me: Login) {
    request.TeamName() == BackendTeam || request.UserLogin() == me
  }

  predicate HasBeenRequestedToReview(pr: PullRequest, me: Login) {
    exists i :: 0 <= i < |pr.reviewRequests| && TargetsMe(pr.reviewRequests[i], me)
  }

  predicate Engaged(pr: PullRequest, me: Login) {
    HasReviewed(pr, me) || HasCommented(pr, me) || HasBeenRequestedToReview(pr, me)
  }

  /** The engagement line of one pull request, or None when it is mine or
      I have no stake in it. */
  function Classification(pr: PullRequest, me: Login): Option<Engagement> {
    if pr.author == me || !Engaged(pr, me) then None
    else Some(Decide(pr, me, Latest(MyInteractions(pr, me)), Latest(AuthorInteractions(pr))))
  }

  /** The status decision between my latest interaction and the author's:
      only a strictly later author interaction hands the ball to me. */
  function Decide(pr: PullRequest, me: Login, mine: Interaction, theirs: Interaction): Engagement {
    var awaiting := mine.Before(theirs.at);
    var speaker := if awaiting then pr.author else me;
    var body := if awaiting then theirs.body else mine.body;
    var snippet := if |body| != 0 then Some(Snippet(speaker, ShortBody(body))) else None;
    Engagement(if awaiting then AwaitingMe else Responded, pr.number, pr.title, pr.permalink, snippet)
  }

  /** The pull requests authored by me, in fetch order. */
  function Authored(prs: seq<PullRequest>, me: Login): (r: seq<PullRequest>)
    ensures forall k :: 0 <= k < |r| ==> r[k].author == me
    decreases |prs|
  {
    if prs == [] then []
    else
      var last := prs[|prs| - 1];
      Authored(prs[..|prs| - 1], me) + (if last.author == me then [last] else [])
  }

  /** The classification of every fetched pull request, in fetch order. */
  function Classifications(prs: seq<PullRequest>, me: Login): (cs: seq<Option<Engagement>>)
    ensures |cs| == |prs|
    ensures forall i :: 0 <= i < |prs| ==> cs[i] == Classification(prs[i], me)
  {
    seq(|prs|, i requires 0 <= i < |prs| => Classification(prs[i], me))
  }

  /** The values present in a sequence of options, in order. */
  function Present<T>(cs: seq<Option<T>>): seq<T>
    decreases |cs|
  {
    if cs == [] then []
    else
      var last := cs[|cs| - 1];
      Present(cs[..|cs| - 1]) + (if last.Some? then [last.value] else [])
  }

  /** The engagement report, in fetch order. */
  function EngagedReport(prs: seq<PullRequest>, me: Login): seq<Engagement> {
    Present(Classifications(prs, me))
  }

  /** The positions in prs that the authored report lists: increasing,
      and covering every pull request whose author is me. */
  ghost function AuthoredIndices(prs: seq<PullRequest>, me: Login): (idx: seq<nat>)
    ensures |idx| == |Authored(prs, me)|
    ensures forall k :: 0 <= k < |idx| ==> idx[k] < |prs| && prs[idx[k]] == Authored(prs, me)[k]
    ensures forall k, l :: 0 <= k < l < |idx| ==> idx[k] < idx[l]
    ensures forall i :: 0 <= i < |prs| && prs[i].author == me ==> i in idx
    decreases |prs|
  {
    if prs == [] then []
    else
      var n := |prs|;
      var init := prs[..n - 1];
      var prev := AuthoredIndices(init, me);
      assert Authored(prs, me) == Authored(init, me) + (if prs[n - 1].author == me then [prs[n - 1]] else []);
      assert forall i :: 0 <= i < n - 1 ==> init[i] == prs[i];
      assert forall k :: 0 <= k < |prev| ==> prev[k] < n - 1;
      prev + (if prs[n - 1].author == me then [n - 1] else [])
  }

  /** The positions that Present keeps: increasing, each holding the value
      listed at that place, and covering every position that holds a
      value. */
  ghost function PresentIndices<T>(cs: seq<Option<T>>): (idx: seq<nat>)
    ensures |idx| == |Present(cs)|
    ensures forall k :: 0 <= k < |idx| ==> idx[k] < |cs| && cs[idx[k]] == Some(Present(cs)[k])
    ensures forall k, l :: 0 <= k < l < |idx| ==> idx[k] < idx[l]
    ensures forall i :: 0 <= i < |cs| && cs[i].Some? ==> i in idx
    decreases |cs|
  {
    if cs == [] then []
    else
      var n := |cs|;
      var init := cs[..n - 1];
      var prev := PresentIndices(init);
      assert Present(cs) == Present(init) + (if cs[n - 1].Some? then [cs[n - 1].value] else []);
      assert forall i :: 0 <= i < n - 1 ==> init[i] == cs[i];
      assert forall k :: 0 <= k < |prev| ==> prev[k] < n - 1;
      prev + (if cs[n - 1].Some? then [n - 1] else [])
  }

  /** The positions in prs that the engagement report lists: increasing,
      each one a pull request whose classification is that line, and
      covering every pull request that is classified at all. */
  ghost function EngagedIndices(prs: seq<PullRequest>, me: Login): (idx: seq<nat>)
    ensures |idx| == |EngagedReport(prs, me)|
    ensures forall k :: 0 <= k < |idx| ==>
      idx[k] < |prs| && Classification(prs[idx[k]], me) == Some(EngagedReport(prs, me)[k])
    ensures forall k, l :: 0 <= k < l < |idx| ==> idx[k] < idx[l]
    ensures forall i :: 0 <= i < |prs| && Classification(prs[i], me).Some? ==> i in idx
  {
    PresentIndices(Classifications(prs, me))
  }

  /** No pull request is in both reports. */
  lemma ReportsDisjoint(prs: seq<PullRequest>, me: Login)
    ensures forall i :: i in AuthoredIndices(prs, me) ==> i !in EngagedIndices(prs, me)
  {
    var a, e := AuthoredIndices(prs, me), EngagedIndices(prs, me);
    forall i | i in a
      ensures i !in e
    {
      var k :| 0 <= k < |a| && a[k] == i;
      assert prs[i].author == me;
      assert forall l :: 0 <= l < |e| ==> e[l] != i;
    }
  }

  /** The engagement predicate: a pull request is reported exactly when it
      is not mine and I reviewed it, commented on it, or a request targets
      my login or the Backend team. */
  lemma EngagementPredicate(pr: PullRequest, me: Login)
    ensures Classification(pr, me).Some? <==>
      pr.author != me &&
      ((exists i :: 0 <= i < |pr.reviews| && pr.reviews[i].author == me) ||
       (exists i :: 0 <= i < |pr.comments| && pr.comments[i].author == me) ||
       (exists i :: 0 <= i < |pr.reviewRequests| &&
          (pr.reviewRequests[i].TeamName() == BackendTeam || pr.reviewRequests[i].UserLogin() == me)))
    ensures Classification(pr, me).Some? ==>
      var e := Classification(pr, me).value;
      e.number == pr.number && e.title == pr.title && e.permalink == pr.permalink
  {
  }

  /** Where the reviews and the issue comments sit in MyPosts. */
  lemma MyPostsAt(pr: PullRequest)
    ensures |MyPosts(pr)| == |pr.reviews| + |pr.comments|
    ensures forall j :: 0 <= j < |pr.reviews| ==> MyPosts(pr)[j] == pr.reviews[j].AsPost()
    ensures forall j :: 0 <= j < |pr.comments| ==> MyPosts(pr)[|pr.reviews| + j] == pr.comments[j]
    ensures forall j :: |pr.reviews| <= j < |MyPosts(pr)| ==> MyPosts(pr)[j] == pr.comments[j - |pr.reviews|]
  {
  }

  /** Every post of mine is before t exactly when every review and every
      issue comment of mine is. */
  lemma MyPostsBefore(pr: PullRequest, me: Login, t: int)
    ensures (forall j :: 0 <= j < |MyPosts(pr)| && MyPosts(pr)[j].author == me ==> MyPosts(pr)[j].publishedAt < t) <==>
      (forall j :: 0 <= j < |pr.reviews| && pr.reviews[j].author == me ==> pr.reviews[j].publishedAt < t) &&
      (forall j :: 0 <= j < |pr.comments| && pr.comments[j].author == me ==> pr.comments[j].publishedAt < t)
  {
    MyPostsAt(pr);
  }

  /** The author spoke last: some issue comment by the author is later
      than zero and than every review and issue comment of mine. */
  predicate AuthorSpokeLast(pr: PullRequest, me: Login) {
    exists i :: 0 <= i < |pr.comments| && pr.comments[i].author == pr.author &&
      0 < pr.comments[i].publishedAt &&
      (forall j :: 0 <= j < |pr.reviews| && pr.reviews[j].author == me ==>
         pr.reviews[j].publishedAt < pr.comments[i].publishedAt) &&
      (forall j :: 0 <= j < |pr.comments| && pr.comments[j].author == me ==>
         pr.comments[j].publishedAt < pr.comments[i].publishedAt)
  }

  /** The status of a reported pull request is AwaitingMe exactly when the
      author spoke last; in particular equal instants give Responded. */
  lemma AwaitingIffAuthorSpokeLast(pr: PullRequest, me: Login)
    requires Classification(pr, me).Some?
    ensures Classification(pr, me).value.status == AwaitingMe <==> AuthorSpokeLast(pr, me)
  {
    var mine, theirs := MyInteractions(pr, me), AuthorInteractions(pr);
    assert Classification(pr, me).value.status == AwaitingMe <==> Latest(mine).Before(Latest(theirs).at);
    if Latest(mine).Before(Latest(theirs).at) {
      LatestBeforeGivesAuthorSpokeLast(pr, me);
    }
    if AuthorSpokeLast(pr, me) {
      AuthorSpokeLastGivesLatestBefore(pr, me);
    }
  }

  lemma LatestBeforeGivesAuthorSpokeLast(pr: PullRequest, me: Login)
    requires Latest(MyInteractions(pr, me)).Before(Latest(AuthorInteractions(pr)).at)
    ensures AuthorSpokeLast(pr, me)
  {
    var m, t := Latest(MyInteractions(pr, me)), Latest(AuthorInteractions(pr));
    LatestPostBy(MyPosts(pr), me);
    LatestPostBy(pr.comments, pr.author);
    assert t != Zero;
    var i :| FirstLatest(pr.comments, pr.author, i) && pr.comments[i].AsInteraction() == t;
    MyPostsBefore(pr, me, t.at);
  }

  lemma AuthorSpokeLastGivesLatestBefore(pr: PullRequest, me: Login)
    requires AuthorSpokeLast(pr, me)
    ensures Latest(MyInteractions(pr, me)).Before(Latest(AuthorInteractions(pr)).at)
  {
    var m, t := Latest(MyInteractions(pr, me)), Latest(AuthorInteractions(pr));
    var i :| 0 <= i < |pr.comments| && pr.comments[i].author == pr.author &&
      0 < pr.comments[i].publishedAt &&
      (forall j :: 0 <= j < |pr.reviews| && pr.reviews[j].author == me ==>
         pr.reviews[j].publishedAt < pr.comments[i].publishedAt) &&
      (forall j :: 0 <= j < |pr.comments| && pr.comments[j].author == me ==>
         pr.comments[j].publishedAt < pr.comments[i].publishedAt);
    LatestPostByBound(pr.comments, pr.author);
    assert pr.comments[i].publishedAt <= t.at;
    LatestPostBy(MyPosts(pr), me);
    if m != Zero {
      var k :| FirstLatest(MyPosts(pr), me, k) && MyPosts(pr)[k].AsInteraction() == m;
      MyPostsBefore(pr, me, pr.comments[i].publishedAt);
      assert m.at < pr.comments[i].publishedAt;
    }
  }

  /** A reported pull request's snippet quotes the chosen latest body. When
      the author spoke last it is the first issue comment by the author at
      the author's latest instant; otherwise it is the first of my reviews
      and then issue comments at my latest instant, or nothing when none of
      mine is later than zero. The snippet is there exactly when that body
      is non-empty, and it names the one who wrote it. */
  lemma SnippetQuotesSpeaker(pr: PullRequest, me: Login)
    requires Classification(pr, me).Some?
    ensures var e := Classification(pr, me).value;
      e.status == AwaitingMe ==>
        exists i :: FirstLatest(pr.comments, pr.author, i) &&
          (e.snippet.Some? <==> pr.comments[i].body != "") &&
          (e.snippet.Some? ==> e.snippet.value == Snippet(pr.author, ShortBody(pr.comments[i].body)))
    ensures var e := Classification(pr, me).value;
      e.status == Responded ==>
        (exists i :: FirstLatest(MyPosts(pr), me, i) &&
           (e.snippet.Some? <==> MyPosts(pr)[i].body != "") &&
           (e.snippet.Some? ==> e.snippet.value == Snippet(me, ShortBody(MyPosts(pr)[i].body)))) ||
        ((forall j :: 0 <= j < |MyPosts(pr)| && MyPosts(pr)[j].author == me ==> MyPosts(pr)[j].publishedAt <= 0) &&
         e.snippet == None)
  {
    var m, t := Latest(MyInteractions(pr, me)), Latest(AuthorInteractions(pr));
    var e := Classification(pr, me).value;
    assert e == Decide(pr, me, m, t);
    LatestPostBy(MyPosts(pr), me);
    LatestPostBy(pr.comments, pr.author);
    if e.status == AwaitingMe {
      assert t != Zero;
      var i :| FirstLatest(pr.comments, pr.author, i) && pr.comments[i].AsInteraction() == t;
      assert pr.comments[i].body == t.body;
    } else if m != Zero {
      var i :| FirstLatest(MyPosts(pr), me, i) && MyPosts(pr)[i].AsInteraction() == m;
      assert MyPosts(pr)[i].body == m.body;
    }
  }

  /** When neither I nor the author has a review or issue comment, a
      pull request reported for a review request reads Responded and has
      no snippet. */
  lemma SilentPullRequestHasNoSnippet(pr: PullRequest, me: Login)
    requires Classification(pr, me).Some?
    requires forall i :: 0 <= i < |pr.reviews| ==> pr.reviews[i].author != me
    requires forall i :: 0 <= i < |pr.comments| ==>
      pr.comments[i].author != me && pr.comments[i].author != pr.author
    ensures Classification(pr, me).value.status == Responded
    ensures Classification(pr, me).value.snippet == None
  {
    var m, t := Latest(MyInteractions(pr, me)), Latest(AuthorInteractions(pr));
    MyPostsAt(pr);
    PostsByMembers(MyPosts(pr), me, m);
    PostsByMembers(pr.comments, pr.author, t);
    assert m == Zero && t == Zero;
  }

  /** Two pull requests with the same header and requests, the same flags
      and the same views for me and the author are classified alike. */
  lemma SameViewsSameClassification(p: PullRequest, q: PullRequest, me: Login)
    requires p.(comments := q.comments, reviews := q.reviews) == q
    requires MyInteractions(p, me) == MyInteractions(q, me)
    requires AuthorInteractions(p) == AuthorInteractions(q)
    requires HasReviewed(p, me) == HasReviewed(q, me)
    requires HasCommented(p, me) == HasCommented(q, me)
    ensures Classification(p, me) == Classification(q, me)
  {
    assert HasBeenRequestedToReview(p, me) == HasBeenRequestedToReview(q, me);
  }

  /** An issue comment by someone who is neither me nor the author changes
      nothing, wherever it sits in the comment list. */
  lemma OtherCommentIgnored(pr: PullRequest, me: Login, before: seq<Post>, after: seq<Post>, c: Post)
    requires c.author != me && c.author != pr.author
    ensures Classification(pr.(comments := before + [c] + after), me) ==
            Classification(pr.(comments := before + after), me)
  {
    var with, without := pr.(comments := before + [c] + after), pr.(comments := before + after);
    ForeignPostIgnored(before, after, c, me);
    ForeignPostIgnored(before, after, c, pr.author);
    var reviews := ReviewPosts(pr.reviews);
    PostsByAppend(reviews, with.comments, me);
    PostsByAppend(reviews, without.comments, me);
    assert MyInteractions(with, me) == MyInteractions(without, me);
    assert AuthorInteractions(with) == AuthorInteractions(without);
    PostsByNonEmpty(with.comments, me);
    PostsByNonEmpty(without.comments, me);
    assert HasCommented(with, me) == HasCommented(without, me);
    SameViewsSameClassification(with, without, me);
  }

  /** Whether I reviewed is whether my view of the reviews is non-empty. */
  lemma HasReviewedIffView(reviews: seq<Review>, me: Login)
    ensures PostsBy(ReviewPosts(reviews), me) != [] <==> exists j :: 0 <= j < |reviews| && reviews[j].author == me
  {
    var posts := ReviewPosts(reviews);
    PostsByNonEmpty(posts, me);
    assert forall j :: 0 <= j < |reviews| ==> posts[j].author == reviews[j].author;
  }

  /** My view of the reviews does not see a review by someone else. */
  lemma OtherReviewView(before: seq<Review>, after: seq<Review>, r: Review, me: Login)
    requires r.author != me
    ensures PostsBy(ReviewPosts(before + [r] + after), me) == PostsBy(ReviewPosts(before + after), me)
  {
    var b, a := ReviewPosts(before), ReviewPosts(after);
    assert ReviewPosts(before + [r] + after) == b + [r.AsPost()] + a;
    assert ReviewPosts(before + after) == b + a;
    ForeignPostIgnored(b, a, r.AsPost(), me);
  }

  /** A review by someone other than me changes nothing: the author's side
      is built from issue comments only. */
  lemma OtherReviewIgnored(pr: PullRequest, me: Login, before: seq<Review>, after: seq<Review>, r: Review)
    requires r.author != me
    ensures Classification(pr.(reviews := before + [r] + after), me) ==
            Classification(pr.(reviews := before + after), me)
  {
    var with, without := pr.(reviews := before + [r] + after), pr.(reviews := before + after);
    OtherReviewView(before, after, r, me);
    PostsByAppend(ReviewPosts(with.reviews), pr.comments, me);
    PostsByAppend(ReviewPosts(without.reviews), pr.comments, me);
    assert MyInteractions(with, me) == MyInteractions(without, me);
    HasReviewedIffView(with.reviews, me);
    HasReviewedIffView(without.reviews, me);
    assert HasReviewed(with, me) == HasReviewed(without, me);
    SameViewsSameClassification(with, without, me);
  }

  /** A request to a user whose display name is the Backend team's name
      counts as a request to me, whoever I am, since the decoded team name
      of a user request is the user's display name. */
  lemma UserNamedLikeBackendCounts(pr: PullRequest, me: Login, i: nat, login: Login)
    requires pr.author != me && i < |pr.reviewRequests|
    requires pr.reviewRequests[i].reviewer == User(login, BackendTeam)
    ensures Classification(pr, me).Some?
  {
    assert TargetsMe(pr.reviewRequests[i], me);
  }

  /** With an empty login for me, every request to a team or to a bot
      counts as a request to me, since its decoded user login is empty. */
  lemma EmptyLoginMatchesNonUserRequests(pr: PullRequest, i: nat)
    requires pr.author != "" && i < |pr.reviewRequests|
    requires !pr.reviewRequests[i].reviewer.User?
    ensures Classification(pr, "").Some?
  {
    assert TargetsMe(pr.reviewRequests[i], "");
  }

  /** One iteration of the review loop: the flag and my running latest
      after the review at i, from their values before it. */
  lemma ReviewStep(reviews: seq<Review>, i: nat, me: Login, hasReviewed: bool, latestMe: Interaction)
    requires i < |reviews|
    requires hasReviewed <==> PostsBy(ReviewPosts(reviews)[..i], me) != []
    requires latestMe == Latest(PostsBy(ReviewPosts(reviews)[..i], me))
    ensures hasReviewed || reviews[i].author == me <==> PostsBy(ReviewPosts(reviews)[..i + 1], me) != []
    ensures Latest(PostsBy(ReviewPosts(reviews)[..i + 1], me)) ==
      if reviews[i].author == me && latestMe.Before(reviews[i].publishedAt)
      then Interaction(reviews[i].body, reviews[i].publishedAt) else latestMe
  {
    var posts := ReviewPosts(reviews);
    assert posts[i] == reviews[i].AsPost();
    PostsByStep(posts, i, me);
    PostsScanStep(posts, i, me, Zero);
  }

  /** The scan over the reviews: whether I reviewed, and my latest review. */
  method ScanReviews(reviews: seq<Review>, me: Login) returns (hasReviewed: bool, latestMe: Interaction)
    ensures hasReviewed <==> exists j :: 0 <= j < |reviews| && reviews[j].author == me
    ensures latestMe == Latest(PostsBy(ReviewPosts(reviews), me))
  {
    hasReviewed, latestMe := false, Zero;
    for i := 0 to |reviews|
      invariant hasReviewed <==> PostsBy(ReviewPosts(reviews)[..i], me) != []
      invariant latestMe == Latest(PostsBy(ReviewPosts(reviews)[..i], me))
    {
      var review := reviews[i];
      ReviewStep(reviews, i, me, hasReviewed, latestMe);
      if review.author == me {
        hasReviewed := true;
        if latestMe.Before(review.publishedAt) {
          latestMe := Interaction(review.body, review.publishedAt);
        }
      }
    }
    assert ReviewPosts(reviews)[..|reviews|] == ReviewPosts(reviews);
    HasReviewedIffView(reviews, me);
  }

  /** One iteration of the comment loop: the flag and both running latest
      values after the comment at i, from their values before it. */
  lemma CommentStep(comments: seq<Post>, i: nat, me: Login, prAuthor: Login, latestMe0: Interaction,
                    hasCommented: bool, latestMe: Interaction, latestAuthor: Interaction)
    requires i < |comments|
    requires hasCommented <==> PostsBy(comments[..i], me) != []
    requires latestMe == Scan(latestMe0, PostsBy(comments[..i], me))
    requires latestAuthor == Latest(PostsBy(comments[..i], prAuthor))
    ensures hasCommented || comments[i].author == me <==> PostsBy(comments[..i + 1], me) != []
    ensures Scan(latestMe0, PostsBy(comments[..i + 1], me)) ==
      if comments[i].author == me && latestMe.Before(comments[i].publishedAt)
      then Interaction(comments[i].body, comments[i].publishedAt) else latestMe
    ensures Latest(PostsBy(comments[..i + 1], prAuthor)) ==
      if comments[i].author == prAuthor && latestAuthor.Before(comments[i].publishedAt)
      then Interaction(comments[i].body, comments[i].publishedAt) else latestAuthor
  {
    PostsByStep(comments, i, me);
    PostsScanStep(comments, i, me, latestMe0);
    PostsScanStep(comments, i, prAuthor, Zero);
  }

  /** The single scan over the issue comments that feeds both sides: my
      running latest continues from latestMe0, the author's starts from
      zero. */
  method ScanComments(comments: seq<Post>, me: Login, prAuthor: Login, latestMe0: Interaction)
    returns (hasCommented: bool, latestMe: Interaction, latestAuthor: Interaction)
    ensures hasCommented <==> exists j :: 0 <= j < |comments| && comments[j].author == me
    ensures latestMe == Scan(latestMe0, PostsBy(comments, me))
    ensures latestAuthor == Latest(PostsBy(comments, prAuthor))
  {
    hasCommented, latestMe, latestAuthor := false, latestMe0, Zero;
    for i := 0 to |comments|
      invariant hasCommented <==> PostsBy(comments[..i], me) != []
      invariant latestMe == Scan(latestMe0, PostsBy(comments[..i], me))
      invariant latestAuthor == Latest(PostsBy(comments[..i], prAuthor))
    {
      var comment := comments[i];
      CommentStep(comments, i, me, prAuthor, latestMe0, hasCommented, latestMe, latestAuthor);
      if comment.author == me {
        hasCommented := true;
        if latestMe.Before(comment.publishedAt) {
          latestMe := Interaction(comment.body, comment.publishedAt);
        }
      }
      if comment.author == prAuthor {
        if latestAuthor.Before(comment.publishedAt) {
          latestAuthor := Interaction(comment.body, comment.publishedAt);
        }
      }
    }
    assert comments[..|comments|] == comments;
    PostsByNonEmpty(comments, me);
  }

  /** The scan over the review requests: whether one targets the Backend
      team or my login. */
  method ScanRequests(requests: seq<ReviewRequest>, me: Login) returns (hasBeenRequested: bool)
    ensures hasBeenRequested <==>
      exists j :: 0 <= j < |requests| &&
        (requests[j].TeamName() == BackendTeam || requests[j].UserLogin() == me)
  {
    hasBeenRequested := false;
    for i := 0 to |requests|
      invariant hasBeenRequested <==> exists j :: 0 <= j < i && TargetsMe(requests[j], me)
    {
      var request := requests[i];
      if request.TeamName() == BackendTeam || request.UserLogin() == me {
        hasBeenRequested := true;
      }
    }
  }

  /** What the three scans of Classify deliver determines the
      classification: the flag decides whether the pull request is
      reported, and the two running latest values decide its line. */
  lemma ClassificationFromScans(pr: PullRequest, me: Login, engaged: bool, latestMe: Interaction, latestAuthor: Interaction)
    requires pr.author != me
    requires engaged <==> (HasReviewed(pr, me) || HasCommented(pr, me) ||
      exists j :: 0 <= j < |pr.reviewRequests| &&
        (pr.reviewRequests[j].TeamName() == BackendTeam || pr.reviewRequests[j].UserLogin() == me))
    requires latestMe == Scan(Latest(PostsBy(ReviewPosts(pr.reviews), me)), PostsBy(pr.comments, me))
    requires latestAuthor == Latest(PostsBy(pr.comments, pr.author))
    ensures Classification(pr, me) == if engaged then Some(Decide(pr, me, latestMe, latestAuthor)) else None
  {
    PostsByAppend(ReviewPosts(pr.reviews), pr.comments, me);
    ScanAppend(Zero, PostsBy(ReviewPosts(pr.reviews), me), PostsBy(pr.comments, me));
    assert engaged == Engaged(pr, me);
  }

  /** The per-pull-request classification: skip my own pull requests, scan
      my reviews, then the issue comments for both me and the author, then
      the review requests, and decide who spoke last. */
  method Classify(pr: PullRequest, me: Login) returns (r: Option<Engagement>)
    ensures r == Classification(pr, me)
  {
    if pr.author == me {
      return None;
    }
    var prAuthor := pr.author;
    var hasReviewed, latestMe := ScanReviews(pr.reviews, me);
    var hasCommented, latestMe', latestAuthor := ScanComments(pr.comments, me, prAuthor, latestMe);
    latestMe := latestMe';
    var hasBeenRequested := ScanRequests(pr.reviewRequests, me);
    ClassificationFromScans(pr, me, hasReviewed || hasCommented || hasBeenRequested, latestMe, latestAuthor);

    if hasReviewed || hasCommented || hasBeenRequested {
      var status := Responded;
      var latestBody := latestMe.body;
      var speaker := me;
      if latestMe.Before(latestAuthor.at) {
        speaker := prAuthor;
        status := AwaitingMe;
        latestBody := latestAuthor.body;
      }
      var snippet := None;
      if |latestBody| != 0 {
        snippet := Some(Snippet(speaker, ShortBody(latestBody)));
      }
      r := Some(Engagement(status, pr.number, pr.title, pr.permalink, snippet));
    } else {
      r := None;
    }
  }

  /** The authored report: number and permalink of every pull request
      whose author is me, in fetch order. */
  method ListAuthored(prs: seq<PullRequest>, me: Login) returns (lines: seq<AuthoredLine>)
    ensures |lines| == |Authored(prs, me)|
    ensures forall k :: 0 <= k < |lines| ==>
      lines[k] == AuthoredLine(Authored(prs, me)[k].number, Authored(prs, me)[k].permalink)
  {
    lines := [];
    for i := 0 to |prs|
      invariant |lines| == |Authored(prs[..i], me)|
      invariant forall k :: 0 <= k < |lines| ==>
        lines[k] == AuthoredLine(Authored(prs[..i], me)[k].number, Authored(prs[..i], me)[k].permalink)
    {
      var pr := prs[i];
      assert prs[..i + 1][..i] == prs[..i];
      if pr.author == me {
        lines := lines + [AuthoredLine(pr.number, pr.permalink)];
      }
    }
    assert prs[..|prs|] == prs;
  }

  /** The engagement report: the classification of every pull request that
      has one, in fetch order. */
  method ListEngaged(prs: seq<PullRequest>, me: Login) returns (report: seq<Engagement>)
    ensures report == EngagedReport(prs, me)
  {
    ghost var cs := Classifications(prs, me);
    report := [];
    for i := 0 to |prs|
      invariant report == Present(cs[..i])
    {
      var line := Classify(prs[i], me);
      assert cs[..i + 1][..i] == cs[..i];
      if line.Some? {
        report := report + [line.value];
      }
    }
    assert cs[..|prs|] == cs;
  }

  const ReviewedAt: int := 1704067200
  const RepliedAt: int := 1704153600
  const AliceReply: string :=
    "addressed your comment, please re-review now please take a look thanks very much for your time today"

  /** A pull request by alice with one review by bob and one issue comment
      by alice, at the given instants. */
  function Exchange(reviewAt: int, reviewBody: string, replyAt: int, reply: string): PullRequest {
    PullRequest(10, "https://example.com/pull/10", "Fix", "alice",
      [Post("alice", replyAt, reply)], [Review("bob", reviewAt, Commented, reviewBody)], [])
  }

  /** bob's view of Exchange: his review only, and alice's view: her
      comment only. */
  lemma ExchangeViews(reviewAt: int, reviewBody: string, replyAt: int, reply: string)
    ensures var pr := Exchange(reviewAt, reviewBody, replyAt, reply);
      MyInteractions(pr, "bob") == [Interaction(reviewBody, reviewAt)] &&
      AuthorInteractions(pr) == [Interaction(reply, replyAt)] &&
      HasReviewed(pr, "bob")
  {
    var pr := Exchange(reviewAt, reviewBody, replyAt, reply);
    var bob, alice := Post("bob", reviewAt, reviewBody), Post("alice", replyAt, reply);
    assert ReviewPosts(pr.reviews) == [bob];
    assert MyPosts(pr) == [bob, alice];
    assert [bob, alice][..1] == [bob] && [bob][..0] == [] && [alice][..0] == [];
    assert PostsBy([bob], "bob") == [Interaction(reviewBody, reviewAt)];
    assert PostsBy([bob, alice], "bob") == PostsBy([bob], "bob");
    assert pr.reviews[0].author == "bob";
  }

  /** The author replied after my review: AwaitingMe, the author speaks,
      and the 100-byte reply gains the ellipsis. */
  lemma ScenarioAuthorRepliedLast()
    ensures Classification(Exchange(ReviewedAt, "looks fine", RepliedAt, AliceReply), "bob") ==
      Some(Engagement(AwaitingMe, 10, "Fix", "https://example.com/pull/10",
        Some(Snippet("alice", AliceReply + Ellipsis))))
  {
    var mine, theirs := Interaction("looks fine", ReviewedAt), Interaction(AliceReply, RepliedAt);
    ExchangeViews(ReviewedAt, "looks fine", RepliedAt, AliceReply);
    ScanStep(Zero, [], mine);
    ScanStep(Zero, [], theirs);
    assert [] + [mine] == [mine] && [] + [theirs] == [theirs];
    assert |AliceReply| == ShortLen;
    ShortBodyAtLimit(AliceReply);
  }

  /** My review came after the author's comment: Responded, I speak, and
      my short body is shown whole. */
  lemma ScenarioIReviewedLast()
    ensures Classification(Exchange(RepliedAt, "looks fine", ReviewedAt, AliceReply), "bob") ==
      Some(Engagement(Responded, 10, "Fix", "https://example.com/pull/10",
        Some(Snippet("bob", "looks fine"))))
  {
    var mine, theirs := Interaction("looks fine", RepliedAt), Interaction(AliceReply, ReviewedAt);
    ExchangeViews(RepliedAt, "looks fine", ReviewedAt, AliceReply);
    ScanStep(Zero, [], mine);
    ScanStep(Zero, [], theirs);
    assert [] + [mine] == [mine] && [] + [theirs] == [theirs];
    assert |"looks fine"| < ShortLen;
  }

  /** My own pull request is listed in the authored report and never in
      the engagement report, whatever its reviews, comments and requests. */
  lemma ScenarioOwnPullRequest(pr: PullRequest)
    requires pr.author == "bob"
    ensures Classification(pr, "bob") == None
    ensures Authored([pr], "bob") == [pr]
    ensures EngagedReport([pr], "bob") == []
  {
    assert [pr][..0] == [];
    var cs := Classifications([pr], "bob");
    assert cs == [None];
    assert cs[..0] == [];
    assert Present(cs) == Present(cs[..0]) + [];
  }
}
