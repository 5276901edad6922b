/**
 * The time-to-live cache behind `/news`: two module variables (the cached
 * list, or null, and the time it was stored), the validity rule, and the
 * handler that serves the cache, or fetches, filters and stores a fresh list,
 * or answers 500 and leaves the cache alone.
 *
 * The clock and the upstream reply are parameters: `now` is the `Date.now()`
 * read by the validity check, `fetchedAt` the one read after the upstream reply
 * arrived, and `upstream` is what the HTTP request produced.
 */
module NewsCache {
  import opened Wrappers
  import opened NewsFilter

  /** How long a stored list is served: 60 minutes, in milliseconds. */
  const CacheDuration: int := 60 * 60 * 1000

  /** The text of the `error` field of a 500 reply. */
  const FailureText: string := "Failed to fetch sports news"

  /** What the upstream request produced. */
  datatype Upstream =
    | RequestFailed(message: string)             // the request rejected (network, non-2xx, timeout)
    | Responded(articles: Option<seq<RawArticle>>) // the body, whose `articles` may be absent

  /** The JSON the handler sends. */
  datatype Response =
    | Served(list: seq<Article>)                                        // 200 with the article array
    | ServerError(error: string, message: FetchError, articles: seq<Article>) // 500 with an empty list

  /** The two module variables, as a value. */
  datatype CacheState = CacheState(cachedArticles: Option<seq<Article>>, cacheTimestamp: int)
  {
    /** `isCacheValid()` at clock reading `now`. */
    predicate IsValidAt(now: int)
    {
      cachedArticles.Some? && now - cacheTimestamp < CacheDuration
    }
  }

  /** The state a process starts with: nothing cached, timestamp 0. */
  const Initial: CacheState := CacheState(None, 0)

  /** Everything the `try` block does before writing the cache; each failing step becomes an error. */
  function Fetch(upstream: Upstream, localize: Localize): Result<seq<Article>, FetchError>
  {
    match upstream
    case RequestFailed(m) => Err(UpstreamFailed(m))
    case Responded(articles) => Process(articles, localize)
  }

  /** One `/news` request: the state afterwards and the reply. */
  datatype Step = Step(state: CacheState, response: Response)

  /** The `/news` handler as a function of the state before the request. */
  function HandleNews(s: CacheState, now: int, upstream: Upstream, fetchedAt: int,
                      localize: Localize): Step
  {
    if s.IsValidAt(now) then Step(s, Served(s.cachedArticles.value))
    else
      match Fetch(upstream, localize)
      case Err(e) => Step(s, ServerError(FailureText, e, []))
      case Ok(list) => Step(CacheState(Some(list), fetchedAt), Served(list))
  }

  /**
   * The validity rule: never valid while nothing has been stored, whatever the
   * clock says; otherwise valid exactly while the age is under 3,600,000 ms,
   * so an age of exactly one hour is already stale. An empty stored list still
   * counts as stored.
   */
  lemma ValidityRule(s: CacheState, now: int)
    ensures s.cachedArticles.None? ==> !s.IsValidAt(now)
    ensures s.cachedArticles.Some? ==> (s.IsValidAt(now) <==> now - s.cacheTimestamp < 3600000)
    ensures s.cachedArticles == Some([]) && now - s.cacheTimestamp < 3600000 ==> s.IsValidAt(now)
    ensures s.cachedArticles.Some? && now == s.cacheTimestamp + 3600000 ==> !s.IsValidAt(now)
  {
  }

  /** A fresh process fetches on its first request, whatever the clock reads. */
  lemma FirstRequestFetches(now: int, upstream: Upstream, fetchedAt: int, localize: Localize)
    ensures var step := HandleNews(Initial, now, upstream, fetchedAt, localize);
      match Fetch(upstream, localize)
      case Ok(list) => step == Step(CacheState(Some(list), fetchedAt), Served(list))
      case Err(e) => step == Step(Initial, ServerError(FailureText, e, []))
  {
  }

  /**
   * On a hit the reply is the stored list as is, the state is unchanged, and
   * the upstream reply is never looked at: any other upstream reply, or fetch
   * time, gives the same step.
   */
  lemma HitServesCacheUnchanged(s: CacheState, now: int, upstream: Upstream, fetchedAt: int,
                                other: Upstream, otherFetchedAt: int, localize: Localize)
    requires s.IsValidAt(now)
    ensures HandleNews(s, now, upstream, fetchedAt, localize) == Step(s, Served(s.cachedArticles.value))
    ensures HandleNews(s, now, upstream, fetchedAt, localize) == HandleNews(s, now, other, otherFetchedAt, localize)
  {
  }

  /**
   * On a miss, either the fetch succeeds and both variables are overwritten
   * (the list by exactly the reply, the timestamp by the fetch-time clock), or
   * some step before the write throws and both are left as they were while the
   * reply is the 500 object with an empty `articles` list.
   */
  lemma MissFetchesAndStores(s: CacheState, now: int, upstream: Upstream, fetchedAt: int,
                             localize: Localize)
    requires !s.IsValidAt(now)
    ensures var step := HandleNews(s, now, upstream, fetchedAt, localize);
      (step.response.Served? ==>
        Fetch(upstream, localize) == Ok(step.response.list) &&
        step.state == CacheState(Some(step.response.list), fetchedAt)) &&
      (step.response.ServerError? ==>
        Fetch(upstream, localize).Err? &&
        step.state == s &&
        step.response == ServerError(FailureText, Fetch(upstream, localize).error, []))
  {
  }

  /** The only way the state changes is a miss followed by a successful fetch. */
  lemma OnlySuccessfulFetchWrites(s: CacheState, now: int, upstream: Upstream, fetchedAt: int,
                                  localize: Localize)
    ensures var step := HandleNews(s, now, upstream, fetchedAt, localize);
      step.state != s ==>
        !s.IsValidAt(now) && Fetch(upstream, localize).Ok? &&
        step.state == CacheState(Some(Fetch(upstream, localize).value), fetchedAt)
  {
  }

  /** Once something is stored the list never goes back to null. */
  lemma StoredStaysStored(s: CacheState, now: int, upstream: Upstream, fetchedAt: int,
                          localize: Localize)
    requires s.cachedArticles.Some?
    ensures HandleNews(s, now, upstream, fetchedAt, localize).state.cachedArticles.Some?
  {
  }

  /**
   * After a fetch that stored a list, any request whose clock reads less than
   * an hour past the fetch time, in particular one at the fetch time itself, is
   * a hit that replies with the very same list, whatever the upstream would say.
   */
  lemma RereadIsHit(s: CacheState, now: int, upstream: Upstream, fetchedAt: int,
                    later: int, laterUpstream: Upstream, laterFetchedAt: int,
                    localize: Localize)
    requires !s.IsValidAt(now)
    requires HandleNews(s, now, upstream, fetchedAt, localize).response.Served?
    requires later - fetchedAt < CacheDuration
    ensures var first := HandleNews(s, now, upstream, fetchedAt, localize);
      HandleNews(first.state, later, laterUpstream, laterFetchedAt, localize) == first
  {
  }

  /** Every article in a stored list passed the content filter. */
  ghost predicate CleanState(s: CacheState)
  {
    s.cachedArticles.Some? ==> forall a :: a in s.cachedArticles.value ==> Clean(a)
  }

  /**
   * Whatever the handler serves with status 200, and whatever it leaves in the
   * cache, consists of articles with a non-empty title and description and no
   * excluded word, provided the cache held only such articles before.
   */
  lemma ServedArticlesAreClean(s: CacheState, now: int, upstream: Upstream, fetchedAt: int,
                               localize: Localize)
    requires CleanState(s)
    ensures var step := HandleNews(s, now, upstream, fetchedAt, localize);
      CleanState(step.state) &&
      (step.response.Served? ==> forall a :: a in step.response.list ==> Clean(a))
  {
    if !s.IsValidAt(now) && upstream.Responded? && Fetch(upstream, localize).Ok? {
      ProcessOutputClean(upstream.articles, localize);
    }
  }

  /** The server's module state: the cached list (or null) and when it was stored. */
  class NewsServer {
    var cachedArticles: Option<seq<Article>>
    var cacheTimestamp: int

    /** The two variables as one value. */
    function State(): CacheState
      reads this
    {
      CacheState(cachedArticles, cacheTimestamp)
    }

    /** The object invariant: the cache only ever holds filtered articles. */
    ghost predicate Valid()
      reads this
    {
      CleanState(State())
    }

    constructor ()
      ensures Valid()
      ensures State() == Initial
    {
      cachedArticles := None;
      cacheTimestamp := 0;
    }

    /** The `/news` request handler. */
    method GetNews(now: int, upstream: Upstream, fetchedAt: int, localize: Localize)
      returns (response: Response)
      requires Valid()
      modifies this
      ensures Valid()
      ensures Step(State(), response) == HandleNews(old(State()), now, upstream, fetchedAt, localize)
    {
      ServedArticlesAreClean(State(), now, upstream, fetchedAt, localize);
      if State().IsValidAt(now) {
        return Served(cachedArticles.value);
      }
      var fetched := Fetch(upstream, localize);
      if fetched.Err? {
        return ServerError(FailureText, fetched.error, []);
      }
      cachedArticles := Some(fetched.value);
      cacheTimestamp := fetchedAt;
      response := Served(fetched.value);
    }
  }
}
