/**
 * Phabricator user lookups with a five-minute cache, and the memoised
 * identity of the mirroring account (mirror/review/arcanist/user.go).
 * Clock readings are parameters, in nanoseconds; the responses of the
 * `user.query` and `user.whoami` calls are decoded values given as inputs.
 */
module Users {
  import opened Wrappers

  datatype User = User(phid: string, userName: string, realName: string, email: string)

  /** A cached lookup: the user found (None for "no such user") and when it was stored. */
  datatype CachedUser = CachedUser(user: Option<User>, time: int)

  /** How long a cached entry stays usable: five minutes, in nanoseconds. */
  const CacheDuration: int := 5 * 60 * 1_000_000_000

  /** The entry was stored strictly after `now` minus five minutes. */
  predicate Fresh(entry: CachedUser, now: int)
  {
    entry.time > now - CacheDuration
  }

  /** The decoded reply of a `user.query` call. */
  datatype QueryResponse = QueryResponse(error: string, errorMessage: string, users: seq<User>)

  /** The decoded reply of a `user.whoami` call. */
  datatype WhoAmIResponse = WhoAmIResponse(error: string, errorMessage: string, user: User)

  // ---------------------------------------------------------------------------
  // The loaders

  /** The answer to a query: a user only when exactly one came back. */
  function SelectUser(users: seq<User>): (u: Option<User>)
    ensures u.Some? <==> |users| == 1
    ensures u.Some? ==> u.value == users[0]
  {
    if |users| != 1 then None else Some(users[0])
  }

  function QueryError(resp: QueryResponse): string
  {
    "Failed to query the Phabricator users: " + resp.errorMessage
  }

  /**
   * The loader of `queryUser`: ask by e-mail address; only when that query
   * succeeds with no result at all, ask again by user name.
   */
  function QueryUserLoader(byEmail: QueryResponse, byUserName: QueryResponse): Result<Option<User>>
  {
    if byEmail.error != "" then Err(QueryError(byEmail))
    else if |byEmail.users| == 0 then
      if byUserName.error != "" then Err(QueryError(byUserName))
      else Ok(SelectUser(byUserName.users))
    else Ok(SelectUser(byEmail.users))
  }

  /** The loader of `lookupUser`: one query by PHID. */
  function LookupUserLoader(byPHID: QueryResponse): Result<Option<User>>
  {
    if byPHID.error != "" then Err(QueryError(byPHID)) else Ok(SelectUser(byPHID.users))
  }

  /**
   * The user-name query is consulted only when the e-mail query succeeded
   * with zero results: otherwise its answer makes no difference.
   */
  lemma QueryUserFallback(byEmail: QueryResponse, byUserName: QueryResponse, other: QueryResponse)
    ensures byEmail.error != "" || |byEmail.users| > 0 ==>
      QueryUserLoader(byEmail, byUserName) == QueryUserLoader(byEmail, other)
    ensures byEmail.error == "" && |byEmail.users| == 0 ==>
      QueryUserLoader(byEmail, byUserName) == LookupUserLoader(byUserName)
  {
  }

  /**
   * Both loaders fail exactly when the consulted query reports an error, and
   * otherwise return a user exactly when that query returned exactly one,
   * namely that one; any other count is "no user" without an error.
   */
  lemma LoadersSelectSingleUser(byEmail: QueryResponse, byUserName: QueryResponse, byPHID: QueryResponse)
    ensures var consulted := if byEmail.error == "" && |byEmail.users| == 0 then byUserName else byEmail;
      var r := QueryUserLoader(byEmail, byUserName);
      && (r.Err? <==> consulted.error != "")
      && !r.Fatal?
      && (r.Ok? ==> (r.value.Some? <==> |consulted.users| == 1))
      && (r.Ok? && r.value.Some? ==> r.value.value == consulted.users[0])
    ensures var r := LookupUserLoader(byPHID);
      && (r.Err? <==> byPHID.error != "")
      && !r.Fatal?
      && (r.Ok? ==> (r.value.Some? <==> |byPHID.users| == 1))
      && (r.Ok? && r.value.Some? ==> r.value.value == byPHID.users[0])
  {
  }

  // ---------------------------------------------------------------------------
  // The cache

  /** What one cache lookup yields: the answer, the new cache, and whether the loader ran. */
  datatype CacheOutcome = CacheOutcome(result: Result<Option<User>>, cache: map<string, CachedUser>, loaderCalled: bool)

  /**
   * `userCacheLookup`: a fresh entry answers without the loader; otherwise
   * the loader runs, a failure is passed on with the cache untouched, and a
   * success (a "no such user" answer included) is stored with the time at
   * which the loader returned.
   */
  function CacheLookup(cache: map<string, CachedUser>, key: string, now: int, storeTime: int, load: Result<Option<User>>): CacheOutcome
  {
    if key in cache && Fresh(cache[key], now) then CacheOutcome(Ok(cache[key].user), cache, false)
    else if !load.Ok? then CacheOutcome(load, cache, true)
    else CacheOutcome(load, cache[key := CachedUser(load.value, storeTime)], true)
  }

  /** A fresh entry is returned as it is, and the loader is not called. */
  lemma FreshEntryServed(cache: map<string, CachedUser>, key: string, now: int, storeTime: int, load: Result<Option<User>>)
    requires key in cache && Fresh(cache[key], now)
    ensures var o := CacheLookup(cache, key, now, storeTime, load);
      o.result == Ok(cache[key].user) && o.cache == cache && !o.loaderCalled
  {
  }

  /**
   * A missing or stale entry calls the loader and returns what it returns;
   * a failed load leaves the cache as it was, and a successful one changes
   * only this key, which then holds the loaded user and the store time.
   */
  lemma MissCallsLoader(cache: map<string, CachedUser>, key: string, now: int, storeTime: int, load: Result<Option<User>>)
    requires !(key in cache && Fresh(cache[key], now))
    ensures var o := CacheLookup(cache, key, now, storeTime, load);
      && o.loaderCalled && o.result == load
      && (!load.Ok? ==> o.cache == cache)
      && (load.Ok? ==> o.cache.Keys == cache.Keys + {key} && o.cache[key] == CachedUser(load.value, storeTime))
      && (forall k | k in cache && k != key :: k in o.cache && o.cache[k] == cache[k])
  {
  }

  /**
   * After a miss, a successful load is served from the cache by any later
   * lookup of the same key made less than five minutes after it was stored,
   * whatever the loader would then return.
   */
  lemma StoredAnswerReused(
    cache: map<string, CachedUser>, key: string, now: int, storeTime: int, load: Result<Option<User>>,
    later: int, laterStore: int, laterLoad: Result<Option<User>>)
    requires !(key in cache && Fresh(cache[key], now)) && load.Ok?
    requires later - CacheDuration < storeTime
    ensures var first := CacheLookup(cache, key, now, storeTime, load);
      var second := CacheLookup(first.cache, key, later, laterStore, laterLoad);
      first.result == load && second.result == load && !second.loaderCalled && second.cache == first.cache
  {
  }

  /**
   * The two lookup caches and the memoised identity of the mirroring
   * account: package-level state that the lookups update in place.
   */
  class UserDirectory {
    var queryCache: map<string, CachedUser>
    var lookupCache: map<string, CachedUser>
    var mirrorUser: Option<User>

    constructor()
      ensures queryCache == map[] && lookupCache == map[] && mirrorUser == None
    {
      queryCache, lookupCache, mirrorUser := map[], map[], None;
    }

    /**
     * `queryUser`: the user with this e-mail address or user name, through
     * the query cache. `now` is the clock at the freshness check,
     * `storeTime` the clock after the loader returned.
     */
    method QueryUser(name: string, now: int, storeTime: int, byEmail: QueryResponse, byUserName: QueryResponse)
      returns (r: Result<Option<User>>, loaderCalled: bool)
      modifies this
      ensures CacheLookup(old(queryCache), name, now, storeTime, QueryUserLoader(byEmail, byUserName))
        == CacheOutcome(r, queryCache, loaderCalled)
      ensures lookupCache == old(lookupCache) && mirrorUser == old(mirrorUser)
    {
      if name in queryCache && queryCache[name].time > now - CacheDuration {
        return Ok(queryCache[name].user), false;
      }
      var result := QueryUserLoader(byEmail, byUserName);
      if !result.Ok? {
        return result, true;
      }
      queryCache := queryCache[name := CachedUser(result.value, storeTime)];
      return result, true;
    }

    /** `lookupUser`: the user with this PHID, through the lookup cache. */
    method LookupUser(userPHID: string, now: int, storeTime: int, byPHID: QueryResponse)
      returns (r: Result<Option<User>>, loaderCalled: bool)
      modifies this
      ensures CacheLookup(old(lookupCache), userPHID, now, storeTime, LookupUserLoader(byPHID))
        == CacheOutcome(r, lookupCache, loaderCalled)
      ensures queryCache == old(queryCache) && mirrorUser == old(mirrorUser)
    {
      if userPHID in lookupCache && lookupCache[userPHID].time > now - CacheDuration {
        return Ok(lookupCache[userPHID].user), false;
      }
      var result := LookupUserLoader(byPHID);
      if !result.Ok? {
        return result, true;
      }
      lookupCache := lookupCache[userPHID := CachedUser(result.value, storeTime)];
      return result, true;
    }

    /**
     * `whoAmI`: the mirroring account, asked for once; a failed call is
     * reported and not remembered.
     */
    method WhoAmI(response: WhoAmIResponse) returns (r: Result<User>)
      modifies this
      ensures (r, mirrorUser) == WhoAmIStep(old(mirrorUser), response)
      ensures queryCache == old(queryCache) && lookupCache == old(lookupCache)
    {
      if mirrorUser.Some? {
        return Ok(mirrorUser.value);
      }
      if response.error != "" {
        return Err("Failed to lookup the current user: " + response.errorMessage);
      }
      mirrorUser := Some(response.user);
      return Ok(response.user);
    }
  }

  /** One `whoAmI` call on the memo: its answer and the memo afterwards. */
  function WhoAmIStep(memo: Option<User>, response: WhoAmIResponse): (Result<User>, Option<User>)
  {
    if memo.Some? then (Ok(memo.value), memo)
    else if response.error != "" then (Err("Failed to lookup the current user: " + response.errorMessage), memo)
    else (Ok(response.user), Some(response.user))
  }

  /**
   * The first successful answer is remembered: every later call returns it,
   * whatever the service would answer; a failed call leaves the memo empty,
   * so the next call asks again.
   */
  lemma WhoAmIMemoises(memo: Option<User>, first: WhoAmIResponse, second: WhoAmIResponse)
    ensures var (r1, memo1) := WhoAmIStep(memo, first);
      && (r1.Ok? ==> memo1 == Some(r1.value) && WhoAmIStep(memo1, second) == (r1, memo1))
      && (r1.Err? ==> memo1 == None && WhoAmIStep(memo1, second) == WhoAmIStep(None, second))
      && !r1.Fatal?
  {
  }
}
