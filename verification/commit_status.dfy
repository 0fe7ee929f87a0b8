/**
 * The commit-status report: the host's state token for an outcome, the
 * default link, and the 40-rune limit on the status key.
 */
module CommitStatus {
  import opened Wrappers
  import opened Transport

  /** An outcome of a check; any value outside the three known ones is
      represented by `UnrecognisedCommitStatus`. */
  datatype CommitStatus =
    | PendingCommitStatus
    | SuccessCommitStatus
    | FailedCommitStatus
    | UnrecognisedCommitStatus(code: int)

  const InProgress: string := "INPROGRESS"
  const Successful: string := "SUCCESSFUL"
  const Failed: string := "FAILED"

  /** The host's state token for an outcome: anything that is not pending or
      success reports as failed. */
  function StateToken(status: CommitStatus): (t: string)
    ensures t == InProgress || t == Successful || t == Failed
    ensures t == InProgress <==> status.PendingCommitStatus?
    ensures t == Successful <==> status.SuccessCommitStatus?
    ensures t == Failed <==> !(status.PendingCommitStatus? || status.SuccessCommitStatus?)
  {
    match status
    case PendingCommitStatus => InProgress
    case SuccessCommitStatus => Successful
    case FailedCommitStatus => Failed
    case UnrecognisedCommitStatus(_) => Failed
  }

  /** The most runes a status key may hold, and how a longer key is shortened. */
  const MaxKeyRunes: nat := 40
  const KeptRunes: nat := 37
  const Ellipsis: string := "..."

  /** The status key limited to 40 runes; a string is a sequence of runes here. */
  function TruncateKey(key: string): (k: string)
    ensures |k| <= MaxKeyRunes
    ensures |key| <= MaxKeyRunes ==> k == key
    ensures |key| > MaxKeyRunes ==> |k| == MaxKeyRunes && k == key[..KeptRunes] + Ellipsis
  {
    if |key| > MaxKeyRunes then key[..KeptRunes] + Ellipsis else key
  }

  /** Shortening a key that already fits changes nothing, so shortening twice
      is shortening once. */
  lemma TruncateKeyIdempotent(key: string)
    ensures TruncateKey(TruncateKey(key)) == TruncateKey(key)
  {
  }

  /** A key's first 37 runes survive the shortening. */
  lemma TruncateKeyKeepsPrefix(key: string)
    ensures var n := if |key| < KeptRunes then |key| else KeptRunes;
      TruncateKey(key)[..n] == key[..n]
  {
  }

  /** The link shown with the status: the given URL, or the server's own when none is given. */
  function StatusUrl(url: string, atlantisUrl: string): (u: string)
    ensures url != "" ==> u == url
    ensures url == "" ==> u == atlantisUrl
    ensures u == "" <==> url == "" && atlantisUrl == ""
  {
    if url == "" then atlantisUrl else url
  }

  /** The body posted for a build status. */
  datatype StatusBody = StatusBody(key: string, url: string, state: string, description: string)

  /** The body for one status report: the key fits the 40-rune limit and is
      the source key itself whenever that fits; the link is never empty when the
      server URL is known; the state is one of the host's three tokens. */
  function BuildStatusBody(atlantisUrl: string, status: CommitStatus, src: string,
                           description: string, url: string): (b: StatusBody)
    ensures |b.key| <= MaxKeyRunes
    ensures |src| <= MaxKeyRunes ==> b.key == src
    ensures |src| > MaxKeyRunes ==> b.key == src[..KeptRunes] + Ellipsis
    ensures url != "" ==> b.url == url
    ensures url == "" ==> b.url == atlantisUrl
    ensures atlantisUrl != "" ==> b.url != ""
    ensures b.state == InProgress || b.state == Successful || b.state == Failed
    ensures b.state == InProgress <==> status.PendingCommitStatus?
    ensures b.state == Successful <==> status.SuccessCommitStatus?
    ensures b.description == description
  {
    StatusBody(TruncateKey(src), StatusUrl(url, atlantisUrl), StateToken(status), description)
  }

  /** Posting the status: `post` is the host's answer to the POST of a body. */
  function UpdateStatus(post: StatusBody -> Reply<()>, atlantisUrl: string, status: CommitStatus,
                        src: string, description: string, url: string): (r: Result<(), Error>)
    ensures var b := BuildStatusBody(atlantisUrl, status, src, description, url);
      && |b.key| <= MaxKeyRunes
      && (atlantisUrl != "" ==> b.url != "")
      && (r.Success? <==> post(b).Answered? && IsSuccessStatus(post(b).code))
      && (r.Failure? ==>
            r.error == (if post(b).Unreachable? then TransportFailed else UnexpectedStatus(post(b).code)))
  {
    Send(post(BuildStatusBody(atlantisUrl, status, src, description, url)))
  }
}
