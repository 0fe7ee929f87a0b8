/**
 * Hiding earlier command comments.  The host cannot hide a comment, so the
 * adapter deletes, in list order, every comment it authored whose first line
 * mentions the command, and stops at the first delete that fails.
 */
module Comments {
  import opened Wrappers
  import opened Transport
  import opened Text
  import opened Identity

  datatype Comment = Comment(id: int, raw: string, userUuid: string)

  /** A comment is deleted when the caller wrote it (UUIDs compared ignoring
      case) and its lower-cased first line contains the lower-cased command. */
  predicate IsPreviousCommandComment(c: Comment, me: string, command: string) {
    EqualFold(c.userUuid, me) && Contains(ToLower(FirstLine(c.raw)), ToLower(command))
  }

  /** The comments to delete, in list order. */
  function Selected(cs: seq<Comment>, me: string, command: string): (r: seq<Comment>)
    ensures |r| <= |cs|
    ensures forall c :: c in r <==> c in cs && IsPreviousCommandComment(c, me, command)
  {
    if cs == [] then []
    else if IsPreviousCommandComment(cs[0], me, command) then [cs[0]] + Selected(cs[1..], me, command)
    else Selected(cs[1..], me, command)
  }

  /** The host's answer to a DELETE of the comment with a given id. */
  type Delete = int -> Reply<()>

  /** The deletions attempted in order, and the error that stopped them, if any. */
  datatype Deletions = Deletions(attempted: seq<Comment>, failure: Option<Error>)

  /** The loop over the listed comments, deleting each selected one. */
  function DeleteSelected(cs: seq<Comment>, me: string, command: string, delete: Delete): (d: Deletions)
    ensures d.attempted <= Selected(cs, me, command)
    ensures forall i :: 0 <= i < |d.attempted| - 1 ==> Send(delete(d.attempted[i].id)).Success?
    ensures d.failure.None? ==>
      && d.attempted == Selected(cs, me, command)
      && forall i :: 0 <= i < |d.attempted| ==> Send(delete(d.attempted[i].id)).Success?
    ensures d.failure.Some? ==>
      && |d.attempted| > 0
      && Send(delete(d.attempted[|d.attempted| - 1].id)) == Failure(d.failure.value)
  {
    if cs == [] then Deletions([], None)
    else
      var c := cs[0];
      if IsPreviousCommandComment(c, me, command) then
        match Send(delete(c.id))
        case Failure(e) => Deletions([c], Some(e))
        case Success(_) =>
          var rest := DeleteSelected(cs[1..], me, command, delete);
          Deletions([c] + rest.attempted, rest.failure)
      else DeleteSelected(cs[1..], me, command, delete)
  }

  /** What hiding did: the identity cache afterwards, the deletions attempted,
      and the error returned, if any. */
  datatype Hiding = Hiding(cache: string, attempted: seq<Comment>, failure: Option<Error>)

  /**
   * Resolve the caller's UUID (through the cache), list the pull request's
   * comments (decoded without field validation), then delete the selected ones.
   */
  function HidePrevCommandComments(cache: string, whoami: Reply<User>, listing: Reply<seq<Comment>>,
                                   delete: Delete, command: string): (h: Hiding)
    ensures var me := GetMyUuid(cache, whoami);
      && h.cache == me.cache
      && (me.result.Failure? ==> h == Hiding(cache, [], Some(IdentityUnavailable(me.result.error))))
      && (me.result.Success? && Receive(listing, false).Failure? ==>
            h == Hiding(me.cache, [], Some(Receive(listing, false).error)))
      && (me.result.Success? && Receive(listing, false).Success? ==>
            var selected := Selected(listing.payload.value, me.result.value, command);
            && h.attempted <= selected
            && (forall i :: 0 <= i < |h.attempted| - 1 ==> Send(delete(h.attempted[i].id)).Success?)
            && (h.failure.None? ==>
                  && h.attempted == selected
                  && forall i :: 0 <= i < |h.attempted| ==> Send(delete(h.attempted[i].id)).Success?)
            && (h.failure.Some? ==>
                  && |h.attempted| > 0
                  && Send(delete(h.attempted[|h.attempted| - 1].id)) == Failure(h.failure.value)))
  {
    var me := GetMyUuid(cache, whoami);
    match me.result
    case Failure(e) => Hiding(cache, [], Some(IdentityUnavailable(e)))
    case Success(uuid) =>
      match Receive(listing, false)
      case Failure(e) => Hiding(me.cache, [], Some(e))
      case Success(comments) =>
        var d := DeleteSelected(comments, uuid, command, delete);
        Hiding(me.cache, d.attempted, d.failure)
  }

  /** Selection keeps list order: selecting from two runs of comments is
      selecting from each and concatenating, and a single comment is kept
      exactly when it matches.  Together these fix `Selected` as the in-order
      filter of the listed comments. */
  lemma {:induction false} SelectedKeepsListOrder(a: seq<Comment>, b: seq<Comment>, c: Comment, me: string, command: string)
    ensures Selected(a + b, me, command) == Selected(a, me, command) + Selected(b, me, command)
    ensures Selected([c], me, command) == if IsPreviousCommandComment(c, me, command) then [c] else []
  {
    assert [c][1..] == [];
    if a != [] {
      assert (a + b)[0] == a[0];
      assert (a + b)[1..] == a[1..] + b;
      SelectedKeepsListOrder(a[1..], b, c, me, command);
    } else {
      assert a + b == b;
    }
  }

  /** The lower-cased command occurs somewhere in the lower-cased first line. */
  ghost predicate FirstLineMentions(c: Comment, command: string) {
    exists i :: OccursAt(ToLower(FirstLine(c.raw)), ToLower(command), i)
  }

  /** Every comment whose deletion is attempted is a listed comment the caller
      wrote whose first line mentions the command. */
  lemma AttemptedAreOwnCommandComments(cs: seq<Comment>, me: string, command: string, delete: Delete)
    ensures forall c :: c in DeleteSelected(cs, me, command, delete).attempted ==>
      c in cs && EqualFold(c.userUuid, me) && FirstLineMentions(c, command)
  {
    var d := DeleteSelected(cs, me, command, delete);
    forall c | c in d.attempted
      ensures c in cs && EqualFold(c.userUuid, me) && FirstLineMentions(c, command)
    {
      var k :| 0 <= k < |d.attempted| && d.attempted[k] == c;
      assert Selected(cs, me, command)[k] == c;
      ContainsIffOccurs(ToLower(FirstLine(c.raw)), ToLower(command));
    }
  }

  /** Splitting an empty body still yields one, empty, line, so a comment
      with an empty body is not skipped: it is deleted exactly when the
      command is empty. */
  lemma EmptyBodyMatchesOnlyEmptyCommand(c: Comment, me: string, command: string)
    requires c.raw == "" && EqualFold(c.userUuid, me)
    ensures IsPreviousCommandComment(c, me, command) <==> command == ""
  {
  }
}
