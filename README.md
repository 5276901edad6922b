# UK Sports News API: the `/news` handler in Dafny

This project models the one piece of logic in the sports-news proxy's
`server.js`: the `GET /news` handler. It has two parts.

- **Content filter and normalisation** (module `NewsFilter`, `news_filter.dfy`).
  The upstream `articles` array is filtered, then mapped. An article is dropped
  when its title or description is missing or empty (JavaScript falsiness:
  null, undefined and `""` alike). It is also dropped when one of eleven
  excluded words occurs, as a substring, in its lower-cased title or
  description. Each survivor becomes a record with `title`, `description`,
  `url`, `image` (from `urlToImage`), `source` (from `source.name`) and
  `publishedAt`.
- **Time-to-live cache** (module `NewsCache`, `news_cache.dfy`). Two module
  variables, `cachedArticles` (null or a list) and `cacheTimestamp`, are the
  fields of the class `NewsServer`. A request either serves the cached list
  unchanged (hit), or fetches, filters and stores a fresh list together with
  the fetch-time clock (miss). If anything throws before the store, it answers
  500 with an empty `articles` list and leaves both variables as they were.
  `HandleNews` is the same handler as a function of the state before the
  request. `NewsServer.GetNews` is proved to agree with it, and the cache
  properties are lemmas about `HandleNews`.

`wrappers.dfy` holds `Option` (a null variable, an absent or null object or
list) and `Result` (a value, or the reason a step threw). A string-valued JSON
field is a `Field`: missing, `null`, or a string. The model keeps missing and
`null` apart because the handler treats them differently in two places.
`new Date(undefined)` and `new Date(null)` render differently, and `res.json`
omits an undefined key but writes a null one.

Inputs that the handler reads from its surroundings are parameters:

- `now` is the `Date.now()` read by `isCacheValid`.
- `fetchedAt` is the `Date.now()` read after the upstream reply arrived (line 83).
- `upstream` is the outcome of the HTTP request: a failure, or the body's
  `articles` field, which may be absent.
- `localize` stands for `new Date(publishedAt).toLocaleString()`. It is a
  function parameter that receives the raw field (missing, null or a string).
  Nothing is assumed about it.

The handler does only what is listed above. In particular it does not:

- deduplicate articles by title;
- fall back to other upstream sources;
- substitute a placeholder record when nothing is left;
- sort by publish time;
- refresh on a timer;
- supply a default image.

When a fetch fails, the handler answers 500 with `{error, message, articles: []}`.
It does not serve the stale cache in that case, and it leaves the cache untouched.

## Model

| member | source | states |
|---|---|---|
| NewsFilter.Lower | server.js:65-66 | lower-cases: the result has the same length, each upper-case ASCII letter becomes its lower-case letter, every other character is unchanged, and no upper-case ASCII letter remains |
| NewsFilter.Includes | server.js:69 | no contract of its own; IncludesIffOccurs states what it computes |
| NewsFilter.MentionsExcluded | server.js:68-70 | no contract of its own; KeepIff states it as "some excluded word occurs at some position" |
| NewsFilter.Keep | server.js:61-71 | no contract of its own; KeepIff and ExcludedOccurrenceDrops state it |
| NewsFilter.Process | server.js:60-79 | no contract of its own; ProcessFails, ProcessPicks and ProcessOutputClean state it |
| NewsCache.CacheState.IsValidAt | server.js:16-20 | no contract of its own; ValidityRule states it |
| NewsCache.Fetch | server.js:52-79 | no contract of its own; a request failure becomes an error, otherwise it is Process; MissFetchesAndStores states its effect on the handler |
| NewsCache.HandleNews | server.js:33-95 | no contract of its own; HitServesCacheUnchanged, MissFetchesAndStores, OnlySuccessfulFetchWrites, RereadIsHit and ServedArticlesAreClean state it, and NewsServer.GetNews is proved equal to it |
| NewsFilter.IncludesIffOccurs | server.js:69 | `includes` holds exactly when the word occurs at some position of the text (a substring test, both directions) |
| NewsFilter.KeepIff | server.js:61-71 | an article is kept iff title and description are present and non-empty and no excluded word occurs at any position of either, lower-cased |
| NewsFilter.ExcludedOccurrenceDrops | server.js:55-70 | for every article, an occurrence of any excluded word at any position of the lower-cased title or description drops it, so "film" also rejects "filmed" |
| NewsFilter.FilmRejectsFilmed | server.js:55-70 | example: "film" rejects a title containing "Filmed": the test matches substrings, not whole words |
| NewsFilter.CapitalsAreExcludedToo | server.js:65-70 | example: a description "MUSIC" is rejected, because the text is lower-cased before the test |
| NewsFilter.Filter | server.js:60-71 | every article the filter returns comes from the input and passes the filter callback |
| NewsFilter.FilterBy | server.js:60-71 | `Array.prototype.filter` returns only input elements the callback accepts |
| NewsFilter.FilterPicks | server.js:60-71 | the filter output is an order-preserving subsequence: output k is input idx[k] with idx increasing, every kept input appears, at the position given by how many were kept before it |
| NewsFilter.Normalise | server.js:72-79 | the map callback succeeds iff `source` is present; title and description are copied, url copied, image is `urlToImage`, source is `source.name`, publishedAt is the localised date; otherwise it throws |
| NewsFilter.MapNormalise | server.js:72-79 | mapping the survivors succeeds iff every survivor has a source; the output then has one record per survivor, field by field, in order |
| NewsFilter.ProcessFails | server.js:60-79 | the pipeline throws for an absent `articles` list, and otherwise exactly when some kept article lacks a source; a dropped article without a source does no harm |
| NewsFilter.ProcessPicks | server.js:60-79 | on success, output k is the normalised form of input idx[k], idx increases, every idx[k] is kept, and every kept input appears |
| NewsFilter.ProcessOutputClean | server.js:60-79 | every produced record has a non-empty title and description and no excluded word |
| NewsCache.ValidityRule | server.js:12-20 | never valid while nothing is stored, whatever the clock; otherwise valid iff the age is under 3,600,000 ms; an age of exactly one hour is stale; a stored empty list counts as stored |
| NewsCache.FirstRequestFetches | server.js:12-39 | in the initial state (null, 0) the first request always fetches: it stores the list with the fetch-time clock, or answers 500 with the state unchanged |
| NewsCache.HitServesCacheUnchanged | server.js:36-39 | on a hit the reply is the cached list, the state is unchanged, and the upstream outcome and fetch time do not matter |
| NewsCache.MissFetchesAndStores | server.js:41-94 | on a miss, a 200 reply means the fetch succeeded and both variables now hold exactly that list and the fetch-time clock; a 500 reply means the fetch threw, the state is unchanged and the body is the fixed error text with an empty list |
| NewsCache.OnlySuccessfulFetchWrites | server.js:82-83 | the state changes only on a miss whose fetch succeeded, and then to that list and the fetch-time clock |
| NewsCache.StoredStaysStored | server.js:82 | once a list is stored, `cachedArticles` never returns to null |
| NewsCache.RereadIsHit | server.js:82-83 | after a fetch that stored a list, a request at any clock under one hour past the fetch time is a hit that replies with the same list and changes nothing |
| NewsCache.ServedArticlesAreClean | server.js:60-86 | if the cache held only filtered articles, every 200 reply and the new cache also hold only filtered articles |
| NewsCache.NewsServer.constructor | server.js:12-13 | the server starts with `cachedArticles` null and `cacheTimestamp` 0, with the cache invariant holding |
| NewsCache.NewsServer.GetNews | server.js:33-95 | the handler's new `cachedArticles`, `cacheTimestamp` and reply are those `HandleNews` gives for the old state, and the cache keeps holding only filtered articles |

## Left out

- The Express app, CORS, the `/` and `/health` routes and `listen`: framework plumbing with no logic.
- The axios request and the URL built from the source list and API key: replaced by the `upstream` parameter.
- `new Date(...).toLocaleString()`: depends on locale and time zone; a function parameter `localize` stands for it.
- `Date.now()`: replaced by the `now` and `fetchedAt` parameters.
- `toLowerCase`: modelled as ASCII lower-casing; Unicode case mapping is not modelled.
- Upstream values of the wrong JSON type. The model assumes these shapes:
  - every string field it reads (`title`, `description`, `url`, `urlToImage`, `publishedAt`, `source.name`) is a string, null or absent;
  - `source` is an object, null or absent;
  - every entry of `articles` is an object;
  - `articles` itself is an array or absent.

  In the JavaScript, a falsy non-string title or description (`0`, `false`) is dropped at line 62 like an empty one. A truthy non-string one makes `toLowerCase` throw at lines 65-66, which the model does not represent. A non-null `source` that is not an object (`false`, `0`, `"BBC"`) does not throw at line 77: its `name` reads as undefined, so the record's `source` is undefined. The model does not represent this case either. A null entry in the array, or a non-array `articles`, would throw.
- The error's `message` text: JavaScript builds it at run time, so the model keeps the kind of failure instead (request failure with its message, missing `articles`, missing `source`).
- Console logging.
- Interleaving of concurrent requests across `await`: the handler is modelled as one atomic step.
