# pr-status-checker: a Dafny model of the "who spoke last" classifier

pr-status-checker fetches a repository's open pull requests and prints two
reports. The first lists the pull requests authored by the configured user
("me"). The second lists the pull requests "me" has engaged with: reviewed,
commented on, or been asked to review. Each line of the second report says
who spoke last:

- ✅ (`Responded`): my latest review or comment is at or after the author's
  latest comment.
- ⚠️ (`AwaitingMe`): the author commented after my latest interaction.

A snippet of the last speaker's body may follow: a body under 100 bytes
is shown whole, and any other is cut to its first 100 bytes plus `...`.

This project models that logic from `main.go` and proves its properties.

- `Interactions` (interactions.dfy) models the `Interaction` pair of body
  and instant, and its `Before`/`After` comparisons. It also models the
  running "latest" accumulator:
  - `Offer` is one step.
  - `Scan` is a scan over a sequence.
  - `Latest` is a scan from the zero interaction.

  Its lemmas state that the result is the maximum instant and that ties
  keep the first item scanned. They also state that the latest instant
  does not depend on scan order.
- `Snippets` (snippets.dfy) models `shortBody`.
- `PullRequests` (pull_requests.dfy) models the fetched data: pull requests,
  issue comments, reviews and review requests. A review is read by the scans
  as a `Post` (author, instant, body), like an issue comment. One filter,
  `PostsBy`, gives the posts of one author in scan order; the accumulators
  scan it.
- `Classifier` (classifier.dfy) holds the two report passes of `main`, taken
  out as methods with loops:
  - `ListAuthored` builds the authored report.
  - `ListEngaged` builds the engagement report by calling `Classify` on
    each pull request.
  - `Classify` runs `ScanReviews`, `ScanComments` and `ScanRequests`, which
    are the three `for` loops of the source.

  Each method is proved equal to a pure specification:
  - `Authored` for the authored report.
  - `Classification` and `Decide` for one pull request.
  - `EngagedReport` for the engagement report.

  The lemmas beside them state what the reports mean.

Instants are integers. `0` stands for the zero `time.Time` that an empty
`Interaction` holds. Bodies are `string` values with one char per byte, as
Go's `len` and slicing count bytes. Output is returned as values (`Status`,
`Engagement`, `Snippet`, `AuthoredLine`) instead of being printed.

Four behaviours of the code are worth noting:

- A body of exactly 100 bytes gains `...`. `shortBody` keeps only bodies
  shorter than 100 bytes whole (`ShortBodyAtLimit`,
  `ScenarioAuthorRepliedLast`).
- The snippet line depends only on whether the chosen body is non-empty, not
  on whether any interaction happened. A real review with an empty body
  shows no snippet either.
- The team that stands for me is the hard-coded team name `"Backend"`
  (`BackendTeam`).
- The team test reads the `Name` field of the team fragment. The model
  takes it that the query client decodes a requested user's display name
  into that field too (see "## Left out"). Under that reading, a
  requested user whose display name is `Backend` counts as a
  request to me (`UserNamedLikeBackendCounts`). With an empty login for me,
  every request to a team or a bot counts, since its decoded user login is
  empty (`EmptyLoginMatchesNonUserRequests`).

## Model

| member | source | states |
|---|---|---|
| `Interactions.Offer` | main.go:151-154 | one accumulator step ends at the later of the two instants, holds either the running value or the candidate, takes the candidate when the running value is `Before` it, and keeps the running value on a tie |
| `Interactions.Scan` | main.go:147-156 | the scanned accumulator is at or after its seed and every item, and it is either the seed or an item strictly later than the seed |
| `Interactions.ScanAppend` | main.go:147-165 | scanning my reviews and then my comments equals one scan over their concatenation |
| `Interactions.LatestAtIsMaximum` | main.go:147-165 | the latest instant equals an independent front-to-back maximum over the items and zero (`MaxAt`) |
| `Interactions.LatestKeepsFirstOfTies` | main.go:148-165 | a zero latest is the empty interaction, and a positive latest is the first item scanned at that instant |
| `Interactions.LatestUniqueMaximum` | main.go:148-173 | an item strictly later than zero and than all others is the result, whatever its position |
| `Interactions.LatestAtOrderIndependent` | main.go:148-173 | two scans over permutations of the same items reach the same latest instant |
| `Interactions.LatestBeforeIff` | main.go:185 | one side's latest is before the other's iff some item of the other side is later than zero and than every item of the first |
| `Snippets.ShortBody` | main.go:198-204 | a body under 100 bytes is returned unchanged; otherwise the result is 103 bytes and ends in `...`; either way it begins with the body's first min(len, 100) bytes |
| `Snippets.ShortBodyDependsOnPrefix` | main.go:198-204 | two bodies give the same snippet iff they are equal or both are at least 100 bytes long with the same first 100 bytes |
| `Snippets.ShortBodyAtLimit` | main.go:199-203 | a body of exactly 100 bytes is shown whole followed by `...` |
| `PullRequests.PostsByMembers` | main.go:148-171 | an interaction is in the view of an author iff it comes from a post by that author |
| `PullRequests.PostsByNonEmpty` | main.go:148-160 | the view of an author is non-empty iff some post's author is that author (`hasReviewed`, `hasCommented`) |
| `PullRequests.PostsScanStep` | main.go:149-171 | the next post replaces the running latest iff its author is the scanned author and it is strictly later |
| `PullRequests.ForeignPostIgnored` | main.go:149-171 | a post by someone else, inserted anywhere, leaves the view of an author unchanged |
| `PullRequests.LatestPostBy` | main.go:148-173 | the running latest over an author's posts is at or after each of them, and is the empty interaction or the first post by that author at the latest instant, which is later than zero |
| `Classifier.Authored` | main.go:124-127 | every pull request in the authored list has me as its author |
| `Classifier.AuthoredIndices` | main.go:124-127 | the authored list is, in increasing fetch positions, exactly the pull requests whose author is me |
| `Classifier.EngagedIndices` | main.go:135-195 | the engagement report is, in increasing fetch positions, the classification of exactly the pull requests that have one |
| `Classifier.ReportsDisjoint` | main.go:124-139 | no fetched pull request is listed in both reports |
| `Classifier.EngagementPredicate` | main.go:136-181 | a pull request is reported iff it is not mine and I reviewed it, commented on it, or a request names the `Backend` team or my login; the line carries its number, title and permalink |
| `Classifier.AwaitingIffAuthorSpokeLast` | main.go:182-189 | status is AwaitingMe iff some comment by the author is later than zero and than all my reviews and comments, so equal instants give Responded |
| `Classifier.SnippetQuotesSpeaker` | main.go:182-193 | under AwaitingMe the snippet quotes the first author comment at the author's latest instant and names the author; under Responded it quotes the first of my reviews-then-comments at my latest instant and names me, or is absent when none of mine is later than zero; either way the snippet is present iff that body is non-empty |
| `Classifier.SilentPullRequestHasNoSnippet` | main.go:182-193 | a reported pull request with no review or issue comment by me and no issue comment by the author reads Responded with no snippet |
| `Classifier.OtherCommentIgnored` | main.go:158-173 | inserting an issue comment by a third party anywhere leaves the classification unchanged |
| `Classifier.OtherReviewIgnored` | main.go:141-156 | inserting a review by anyone but me anywhere leaves the classification unchanged, so reviews never feed the author's side |
| `Classifier.EmptyLoginMatchesNonUserRequests` | main.go:175-179 | with an empty login for me, any request to a team or to a non-user reviewer makes a pull request by someone else reported |
| `Classifier.UserNamedLikeBackendCounts` | main.go:175-179 | a request to a user whose display name is `Backend` makes a pull request by someone else reported, whatever my login |
| `Classifier.ScanReviews` | main.go:148-156 | the review loop sets `hasReviewed` iff some review is mine, and ends with my latest review |
| `Classifier.ScanComments` | main.go:158-173 | the comment loop sets `hasCommented` iff some comment is mine, continues my latest over my comments, and builds the author's latest from the author's comments |
| `Classifier.ScanRequests` | main.go:175-179 | the request loop sets its flag iff some request names the `Backend` team or my login |
| `Classifier.Classify` | main.go:135-194 | the per-pull-request loop body returns exactly the specified classification |
| `Classifier.ListAuthored` | main.go:124-132 | the authored report lists the number and permalink of each authored pull request, in order |
| `Classifier.ListEngaged` | main.go:135-195 | the engagement report is the specified one, in fetch order |
| `Classifier.ScenarioAuthorRepliedLast` | main.go:182-203 | review by bob, then a later 100-byte reply by the author alice: AwaitingMe, speaker alice, body plus `...` |
| `Classifier.ScenarioIReviewedLast` | main.go:182-203 | alice's comment, then bob's later review: Responded, speaker bob, the body shown whole |
| `Classifier.ScenarioOwnPullRequest` | main.go:124-139 | a pull request by me is in the authored list and not in the engagement report |

## Left out

- The GraphQL query shape, its tags and the unused pagination cursors
  (main.go:11-76). These describe the hosting service's schema. The model
  takes the decoded lists as they are.
- The server-side filters of the query: open pull requests only, the last
  100 pull requests, the last 10 comments and requests, and only my latest
  review in the four non-approving states. The model accepts lists of any
  length and content, and every proved property holds for all of them.
- Reading the environment, the token setup, building the client, and the
  network query with its `panic` on failure (main.go:92-119). These are I/O
  and foreign library calls. A failed fetch prints nothing, so no report
  exists to model.
- Printing the repository description, headings, glyphs and line formats
  (main.go:121-123, 126, 134, 190-192). The reports are returned as values.
- The internals of `gh.DateTime`/`time.Time`. Instants are integers, and `0`
  is the zero time.
- UTF-8. Bodies are treated as byte sequences, so a cut in the middle of a
  multi-byte character is not modelled specially.
- PullRequests.ReviewRequest.TeamName: the query client's decoder is not part
  of this model. The model takes it that the decoder fills every inline
  fragment that has a field for a key of the response, whatever the
  reviewer's kind, so a user's display name is read as a team name.
- `Interaction.After` (main.go:83-85) is never called. The model keeps it as
  a predicate and proves nothing about it.
