/**
 * The caller's own UUID and its cache.  The cache is an explicit state value:
 * the empty string means nothing is cached yet, exactly as for the
 * process-wide variable it stands for.
 */
module Identity {
  import opened Wrappers
  import opened Transport

  /** The field of the "current user" response that is read. */
  datatype User = User(uuid: string)

  /** The outcome of one resolution: the cache afterwards, whether a request
      was made, and the UUID or the error. */
  datatype Resolution = Resolution(cache: string, requested: bool, result: Result<string, Error>)

  predicate IsCached(cache: string) {
    cache != ""
  }

  /** Resolves the caller's UUID: from the cache when it is populated, else by
      asking the host (`whoami` is its answer) and caching what it returns. */
  function GetMyUuid(cache: string, whoami: Reply<User>): (r: Resolution)
    ensures IsCached(cache) ==> r == Resolution(cache, false, Success(cache))
    ensures !IsCached(cache) ==> r.requested
    ensures !IsCached(cache) ==>
      (r.result.Success? <==> Receive(whoami, true).Success?)
    ensures r.result.Success? ==> r.cache == r.result.value
    ensures r.result.Success? && r.requested ==> r.result.value == whoami.payload.value.uuid
    ensures r.result.Failure? ==> r.cache == cache && r.result.error == Receive(whoami, true).error
  {
    if IsCached(cache) then Resolution(cache, false, Success(cache))
    else
      match Receive(whoami, true)
      case Failure(e) => Resolution(cache, true, Failure(e))
      case Success(user) => Resolution(user.uuid, true, Success(user.uuid))
  }

  /** Once a resolution has produced a non-empty UUID, the next one answers
      the same UUID without a request, whatever the host would say. */
  lemma SecondResolutionIsCached(cache: string, first: Reply<User>, second: Reply<User>)
    requires GetMyUuid(cache, first).result.Success?
    requires GetMyUuid(cache, first).result.value != ""
    ensures var r1 := GetMyUuid(cache, first);
      var r2 := GetMyUuid(r1.cache, second);
      !r2.requested && r2.result == r1.result && r2.cache == r1.cache
  {
  }

  /** A populated cache is never replaced. */
  lemma CacheNeverInvalidated(cache: string, whoami: Reply<User>)
    requires IsCached(cache)
    ensures GetMyUuid(cache, whoami).cache == cache
  {
  }
}
