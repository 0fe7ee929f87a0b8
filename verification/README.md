# Bitbucket Cloud adapter: a Dafny model

This project models the decision rules of Atlantis's Bitbucket Cloud client
(`server/events/vcs/bitbucketcloud/client.go`). That client is the adapter
through which the pull-request automation server talks to bitbucket.org.
Network round trips are represented as values, so each operation is a pure
function of the host's answers:

- a reply is either `Unreachable` or `Answered(code, payload)`;
- a payload is either `Garbled` (not JSON of the expected shape) or
  `Decoded(value, complete)`, where `complete` says whether the struct
  validator would find every required field;
- a paginated endpoint is a function from page URL to reply.

Modules:

- `Transport` is the status-code check of `makeRequest` and the
  request, decode, validate sequence every reader repeats.
- `DiffStat` is the bounded cursor walk over diff-stat pages. It allows at
  most 1000 iterations. It stops at an absent or empty `next`, at the first
  failing request, or when the iterations run out.
- `ModifiedFiles` collects the old and new path of every entry and removes
  duplicates in first-seen order. It has a functional definition and a
  loop-based method that follows the source's loops.
- `Mergeability` is the sentinel scan for `"merge conflict"` and
  `"local deleted"`. The scan short-circuits, so later pages are not
  requested.
- `Approval` counts approvals but excludes the author's own.
- `CommitStatus` holds the state-token mapping with its fail-closed default,
  the default link, and the 40-rune key truncation.
- `Identity` is the UUID cache, held as an explicit state value. The empty
  string means "not cached", as for the source's `MY_UUID`.
- `Comments` selects and deletes earlier command comments, in list order,
  and stops at the first failed delete.
- `Text` provides the ASCII lower-casing, case-insensitive equality,
  substring search and first-line extraction that comment selection uses.
- `Wrappers` holds `Option` and `Result`.

Behaviours of the code a reader may not expect, all of which the model keeps:

- The walk keeps no set of visited pages. A cursor that points back at its
  own page is fetched again and again until the 1000-iteration bound
  (`DiffStat.SelfCursorExhaustsFuel`).
- `strings.Split` never returns an empty slice, so the "skip a comment with
  an empty body" branch never runs. An empty comment of the caller's is
  deleted exactly when the command is empty
  (`Comments.EmptyBodyMatchesOnlyEmptyCommand`).
- The identity cache counts as populated only when it holds a non-empty
  UUID. If the host returns an empty UUID, the next call asks again, so
  "two calls, one request" holds only for a non-empty UUID
  (`Identity.SecondResolutionIsCached`).
- When the iteration bound is reached, `GetModifiedFiles` returns the files
  collected so far. `PullIsMergeable` answers true even though pages remain
  unread. Both results are stated exactly by the walk-based contracts.

## Model

| member | source | states |
|---|---|---|
| Transport.Send | server/events/vcs/bitbucketcloud/client.go:330-351 | a request succeeds exactly when the host answered with 200, 201 or 204; an unreachable host is a transport error; any other code is an error carrying that code |
| Transport.Receive | server/events/vcs/bitbucketcloud/client.go:54-64 | a decoded value is returned only after a success code, a decodable body and, when validation is asked for, all required fields; otherwise the first of those checks to fail gives the error |
| DiffStat.Visit | server/events/vcs/bitbucketcloud/client.go:50-77 | the walk requests at most `fuel` (1000) pages, starting with the first URL, one page per successful request plus the failing request if any |
| DiffStat.VisitFollowsCursors | server/events/vcs/bitbucketcloud/client.go:51-76 | every page is what its URL returned; every later URL is the non-empty `next` of the page before; a failure is what the last URL returned; a walk shorter than the bound ends at a page whose `next` is absent or empty |
| DiffStat.SelfCursorExhaustsFuel | server/events/vcs/bitbucketcloud/client.go:51-53 | a page whose cursor names itself is requested exactly `fuel` times and the walk ends without error: only the iteration bound stops a cycle |
| ModifiedFiles.EntriesPathsMembership | server/events/vcs/bitbucketcloud/client.go:65-72 | a path is collected from a page's entries exactly when some entry has it as old or new path |
| ModifiedFiles.CollectMembership | server/events/vcs/bitbucketcloud/client.go:53-76 | a path is collected from the visited pages exactly when some entry of some page names it |
| ModifiedFiles.Dedup | server/events/vcs/bitbucketcloud/client.go:79-87 | the result has no duplicates, holds exactly the input's elements, and is no longer than the input |
| ModifiedFiles.DedupKeepsFirstOccurrenceOrder | server/events/vcs/bitbucketcloud/client.go:79-87 | the result lists elements in the order of their first occurrence in the input |
| ModifiedFiles.ModifiedFiles | server/events/vcs/bitbucketcloud/client.go:47-89 | a failed page request yields that error and no files; otherwise the files have no duplicates, are exactly the old and new paths of the entries on the visited pages, and follow the order in which those paths first appear (old before new within an entry) |
| ModifiedFiles.AppendEntryPaths | server/events/vcs/bitbucketcloud/client.go:65-72 | the entry loop appends exactly the collected paths of the page, in order |
| ModifiedFiles.Unique | server/events/vcs/bitbucketcloud/client.go:80-87 | the loop with a set of seen paths computes the first-occurrence deduplication |
| ModifiedFiles.GetModifiedFiles | server/events/vcs/bitbucketcloud/client.go:47-89 | the bounded page loop with early exit on error or last page returns the same result as the walk-based definition |
| Mergeability.AllEntriesClear | server/events/vcs/bitbucketcloud/client.go:243-248 | a page is clear exactly when no entry's status is "merge conflict" or "local deleted" |
| Mergeability.Mergeable | server/events/vcs/bitbucketcloud/client.go:228-254 | the check requests at most `fuel` pages, starting with the first URL |
| Mergeability.MergeableIsTruncatedWalk | server/events/vcs/bitbucketcloud/client.go:231-254 | the check is the diff-stat walk cut at the first blocked page: false after requesting exactly the URLs up to that page; otherwise the walk's error or true after requesting all its URLs |
| Mergeability.PullIsMergeable | server/events/vcs/bitbucketcloud/client.go:227-255 | false exactly when some visited page has a sentinel status; true exactly when the walk had no error and no visited page has one; any error is the walk's |
| Approval.AnyApproval | server/events/vcs/bitbucketcloud/client.go:214-223 | the scan answers true exactly when some participant approved and is not the author (exact UUID comparison) |
| Approval.PullIsApproved | server/events/vcs/bitbucketcloud/client.go:200-224 | a failed or incomplete pull-request response is an error; otherwise approved exactly when some non-author participant approved |
| Approval.AuthorAloneDoesNotApprove | server/events/vcs/bitbucketcloud/client.go:215-217 | when every approval comes from the author the pull request is not approved |
| Approval.ApprovalWithAnotherParticipant | server/events/vcs/bitbucketcloud/client.go:214-222 | adding a participant makes the result the old one or whether that participant's approval counts |
| CommitStatus.StateToken | server/events/vcs/bitbucketcloud/client.go:259-267 | pending gives INPROGRESS and only pending does; success gives SUCCESSFUL and only success does; failed and every unrecognised value give FAILED |
| CommitStatus.TruncateKey | server/events/vcs/bitbucketcloud/client.go:277-280 | a key of at most 40 runes is unchanged; a longer one becomes its first 37 runes and "...", exactly 40 runes |
| CommitStatus.TruncateKeyIdempotent | server/events/vcs/bitbucketcloud/client.go:277-280 | shortening an already shortened key changes nothing |
| CommitStatus.TruncateKeyKeepsPrefix | server/events/vcs/bitbucketcloud/client.go:278-279 | the first 37 runes of a key survive truncation |
| CommitStatus.StatusUrl | server/events/vcs/bitbucketcloud/client.go:273-275 | an empty link is replaced by the server URL, a non-empty one is kept; the result is empty only if both are |
| CommitStatus.BuildStatusBody | server/events/vcs/bitbucketcloud/client.go:268-287 | the posted key has at most 40 runes and is the source key when that fits, otherwise its first 37 runes and "..."; the link is the given one, or the server URL when none is given, and so never empty when the server URL is known; the state is INPROGRESS exactly for pending, SUCCESSFUL exactly for success, and FAILED otherwise; the description is passed through |
| CommitStatus.UpdateStatus | server/events/vcs/bitbucketcloud/client.go:258-295 | the posted key has at most 40 runes, the link is non-empty when the server URL is, and the update succeeds exactly when the POST got a success code; otherwise the error is a transport failure when the request could not be made and the unexpected status code when it was answered |
| Identity.GetMyUuid | server/events/vcs/bitbucketcloud/client.go:172-197 | a populated cache is answered without a request and kept; otherwise the host is asked, and a success stores and returns the fetched UUID while a failure leaves the cache as it was |
| Identity.SecondResolutionIsCached | server/events/vcs/bitbucketcloud/client.go:173-195 | after a resolution yields a non-empty UUID, the next one makes no request and returns the same UUID |
| Identity.CacheNeverInvalidated | server/events/vcs/bitbucketcloud/client.go:194-196 | a populated cache is never replaced |
| Text.ToLower | server/events/vcs/bitbucketcloud/client.go:135-136 | the lower-cased line keeps its length, has no upper-case letter left, and equals the original with case ignored |
| Text.EqualFoldIffSameLower | server/events/vcs/bitbucketcloud/client.go:128-136 | case-insensitive equality of two strings holds exactly when their lower-cased forms are equal |
| Text.FirstLine | server/events/vcs/bitbucketcloud/client.go:130-135 | the first line is the longest prefix without a line break: a prefix of the body, free of '\n', followed by '\n' or the end of the body |
| Text.ContainsIffOccurs | server/events/vcs/bitbucketcloud/client.go:136 | the substring search succeeds exactly when the command occurs at some position of the line |
| Comments.Selected | server/events/vcs/bitbucketcloud/client.go:126-145 | a comment is selected exactly when it is listed, its author matches the caller ignoring case, and its lower-cased first line contains the lower-cased command |
| Comments.SelectedKeepsListOrder | server/events/vcs/bitbucketcloud/client.go:126-145 | selection is an in-order filter: selecting from two concatenated runs of comments is selecting from each and concatenating, and a single comment is kept exactly when it is a previous command comment |
| Comments.DeleteSelected | server/events/vcs/bitbucketcloud/client.go:126-146 | deletions are attempted on a prefix of the selected comments in list order; all but the last attempted succeeded; without error every selected comment was deleted; an error is the last attempted delete's |
| Comments.HidePrevCommandComments | server/events/vcs/bitbucketcloud/client.go:113-147 | an identity failure is wrapped and nothing is deleted; a listing failure is returned and nothing is deleted; otherwise deletions are attempted on a prefix of the selected comments, every attempt but the last succeeded, without error every selected comment was deleted, and an error is the last attempted delete's |
| Comments.AttemptedAreOwnCommandComments | server/events/vcs/bitbucketcloud/client.go:128-139 | only listed comments written by the caller whose first line mentions the command are ever deleted |
| Comments.EmptyBodyMatchesOnlyEmptyCommand | server/events/vcs/bitbucketcloud/client.go:130-136 | an empty comment of the caller's is deleted exactly when the command is empty |

## Left out

- HTTP transport and request building (`prepRequest`, basic auth, the `X-Atlassian-Token` and `Content-Type` headers, body reading) are network plumbing. Only the status-code rule of `makeRequest` is modelled.
- JSON encoding and decoding and the struct validator are foreign library calls. Their outcome is the `Payload` value: garbled, or decoded with or without all required fields.
- Error message texts and `errors.Wrap` context strings are not modelled. Errors are the `Transport.Error` variants, and the identity failure in comment hiding is wrapped as `IdentityUnavailable`.
- Logging calls are side effects with no effect on results.
- Concurrent access to the process-wide `MY_UUID` is not modelled. The cache is threaded through as explicit sequential state.
- Comments.HidePrevCommandComments: the comment listing is decoded without validation, as in the source. A listed comment missing its id or author would make the source dereference a nil pointer. The model's comments always carry both fields, so that crash is not represented.
- Fields behind pointers: the source dereferences `*user.UUID` (:190), `*v.Old.Path` and `*v.New.Path` (:67, :70), `*v.Status` (:245), `*pullResp.Author.UUID` (:213) and `*participant.Approved` and `*participant.User.UUID` (:217) after validating the decoded struct, whose required-field tags are not part of this model. The model assumes that a response decoded with `complete` set carries all of these fields, so `User`, `Entry` and `Participant` always hold them and no nil dereference is represented.
- Text.ToLower and Text.EqualFold map only ASCII letters. Go's `strings.ToLower` and `strings.EqualFold` use full Unicode case mapping, which is not modelled.
- CommitStatus.TruncateKey treats a string as a sequence of runes. Go's `utf8.RuneCountInString` and `%.37s` also count runes, including one per invalid byte. The byte encoding itself is not modelled.
- The status body's JSON serialisation is left out: `json.Marshal` of a string map cannot fail.
- `CreateComment`, `MergePull`, `DeletePullRequestComment` and `GetPullRequestComments` are a single request each with no logic. The last two appear only through the delete and listing replies of comment hiding.
- `NewClient`, `ReactToComment`, `DiscardReviews`, `GetTeamNamesForUser`, `SupportsSingleFileDownload`, `GetFileContent`, `GetCloneURL` and `GetPullLabels` are stubs or fixed returns.
- `MarkdownPullLink` is trivial formatting of the pull-request number.
