/**
 * The approval query: a pull request counts as approved when some
 * participant other than its author has approved it.  The host lets authors
 * approve their own pull requests; that approval is not counted.
 */
module Approval {
  import opened Wrappers
  import opened Transport

  datatype Participant = Participant(userUuid: string, approved: bool)

  /** The fields of a pull request the approval rule reads. */
  datatype PullRequest = PullRequest(authorUuid: string, participants: seq<Participant>)

  datatype ApprovalStatus = ApprovalStatus(isApproved: bool)

  /** An approval counts unless it comes from the author (UUIDs compared exactly). */
  predicate CountsAsApproval(p: Participant, authorUuid: string) {
    p.approved && p.userUuid != authorUuid
  }

  /** The scan over participants in order, stopping at the first counting approval. */
  function AnyApproval(ps: seq<Participant>, authorUuid: string): (r: bool)
    ensures r <==> exists i :: 0 <= i < |ps| && CountsAsApproval(ps[i], authorUuid)
  {
    if ps == [] then false
    else if CountsAsApproval(ps[0], authorUuid) then true
    else
      assert forall i :: 1 <= i < |ps| ==> ps[1..][i - 1] == ps[i];
      AnyApproval(ps[1..], authorUuid)
  }

  /** The approval status from the host's answer to a GET of the pull request,
      which must decode and carry its required fields. */
  function PullIsApproved(reply: Reply<PullRequest>): (r: Result<ApprovalStatus, Error>)
    ensures r.Success? <==> Receive(reply, true).Success?
    ensures r.Failure? ==> r.error == Receive(reply, true).error
    ensures r.Success? ==>
      var pr := reply.payload.value;
      (r.value.isApproved <==>
         exists i :: 0 <= i < |pr.participants| && CountsAsApproval(pr.participants[i], pr.authorUuid))
  {
    var pr :- Receive(reply, true);
    Success(ApprovalStatus(AnyApproval(pr.participants, pr.authorUuid)))
  }

  /** Approvals from the author alone never make the pull request approved. */
  lemma AuthorAloneDoesNotApprove(ps: seq<Participant>, authorUuid: string)
    requires forall i :: 0 <= i < |ps| && ps[i].approved ==> ps[i].userUuid == authorUuid
    ensures !AnyApproval(ps, authorUuid)
  {
  }

  /** A further participant can only add an approval: the result with `p`
      appended is the old result or whether `p` counts. */
  lemma {:induction false} ApprovalWithAnotherParticipant(ps: seq<Participant>, p: Participant, authorUuid: string)
    ensures AnyApproval(ps + [p], authorUuid) <==> AnyApproval(ps, authorUuid) || CountsAsApproval(p, authorUuid)
  {
    if ps != [] {
      assert (ps + [p])[1..] == ps[1..] + [p];
      ApprovalWithAnotherParticipant(ps[1..], p, authorUuid);
    } else {
      assert [p][1..] == [];
    }
  }
}
