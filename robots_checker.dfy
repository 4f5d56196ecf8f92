/**
 * The robots.txt gate in front of every scrape: a cache of parsed rulesets
 * keyed by the site's `/robots.txt` URL, each entry trusted for one hour,
 * with every failure answered "allowed". The clock, the HTTP fetch and the
 * robots.txt rule semantics are parameters: this model decides only when to
 * fetch, what to cache and what to answer.
 */
module Robots {
  import opened Wrappers
  import opened Platform

  /** One hour, in milliseconds: how long a cached ruleset is trusted. */
  const CacheTimeout: int := 60 * 60 * 1000

  /** The user agent the server identifies itself as when asking for permission. */
  const DefaultUserAgent: string := "NewsScraperBot"

  /** A parsed robots.txt: `robots.isAllowed(url, userAgent)`. */
  datatype Ruleset = Ruleset(allows: (string, string) -> bool)

  /** A cache entry: the parsed ruleset and the time it was stored. */
  datatype Entry = Entry(robots: Ruleset, timestamp: int)

  /** What `axios.get` of a robots.txt URL does: a body, a 404, or any other error. */
  datatype Fetch = Body(data: string) | NotFound | Failed

  /** What `getRobotsContent` does: return the body or null, or throw. */
  datatype Content = Content(data: Option<string>) | Thrown

  /** `getRobotsContent`: a 404 reads as "no robots.txt" (null); any other failure is rethrown. */
  function GetRobotsContent(outcome: Fetch): (r: Content)
    ensures r.Thrown? <==> outcome.Failed?
    ensures r == Content(None) <==> outcome.NotFound?
    ensures outcome.Body? ==> r == Content(Some(outcome.data))
  {
    match outcome
    case Body(data) => Content(Some(data))
    case NotFound => Content(None)
    case Failed => Thrown
  }

  /** A falsy robots.txt body: null or the empty string. */
  predicate Falsy(content: Option<string>) {
    content.None? || content.value == ""
  }

  /** `new URL("/robots.txt", url).toString()`: the cache key, absent when `url` does not parse. */
  function RobotsUrl(urls: UrlParser, url: string): Option<string> {
    match urls.resolve("/robots.txt", url)
    case None => None
    case Some(u) => Some(u.href)
  }

  /** The entry for `key` is there and younger than `timeout` at time `now`. */
  predicate Fresh(cache: map<string, Entry>, key: string, now: int, timeout: int) {
    key in cache && now - cache[key].timestamp < timeout
  }

  /** The outcome of one `isAllowed` call: the answer, the new cache, and the URLs fetched. */
  datatype Decision = Decision(allowed: bool, cache: map<string, Entry>, fetched: seq<string>)

  /**
   * `isAllowed(url, userAgent)` against `cache`. `now` is the clock when the
   * cache is consulted and `storedAt` the clock when a fresh ruleset is
   * stored, after the fetch; `fetch` is the network, `parse` is the
   * robots.txt parser.
   */
  function Check(cache: map<string, Entry>, timeout: int, url: string, userAgent: string, urls: UrlParser,
                 now: int, storedAt: int, fetch: string -> Fetch, parse: (string, string) -> Ruleset): (d: Decision)
    ensures RobotsUrl(urls, url).None? ==> d == Decision(true, cache, [])
    ensures RobotsUrl(urls, url).Some? ==>
      var key := RobotsUrl(urls, url).value;
      (d.fetched == [] <==> Fresh(cache, key, now, timeout))
      && (d.fetched == [] || d.fetched == [key])
      && (d.cache == cache
          || (fetch(key).Body? && d.cache == cache[key := Entry(parse(key, fetch(key).data), storedAt)]))
    ensures !d.allowed ==>
              RobotsUrl(urls, url).Some? && RobotsUrl(urls, url).value in d.cache
              && !d.cache[RobotsUrl(urls, url).value].robots.allows(url, userAgent)
  {
    match RobotsUrl(urls, url)
    case None => Decision(true, cache, [])
    case Some(key) =>
      if Fresh(cache, key, now, timeout) then Decision(cache[key].robots.allows(url, userAgent), cache, [])
      else
        match GetRobotsContent(fetch(key))
        case Thrown => Decision(true, cache, [key])
        case Content(content) =>
          if Falsy(content) then Decision(true, cache, [key])
          else
            var robots := parse(key, content.value);
            Decision(robots.allows(url, userAgent), cache[key := Entry(robots, storedAt)], [key])
  }

  /** A fresh cache entry answers the call: nothing is fetched and the cache is untouched. */
  lemma CacheHitAnswersWithoutFetch(cache: map<string, Entry>, timeout: int, url: string, userAgent: string, urls: UrlParser,
                                    now: int, storedAt: int, fetch: string -> Fetch, parse: (string, string) -> Ruleset)
    requires RobotsUrl(urls, url).Some? && Fresh(cache, RobotsUrl(urls, url).value, now, timeout)
    ensures var d := Check(cache, timeout, url, userAgent, urls, now, storedAt, fetch, parse);
      d.fetched == [] && d.cache == cache
      && d.allowed == cache[RobotsUrl(urls, url).value].robots.allows(url, userAgent)
  {
  }

  /** A missing or stale entry makes the call fetch the robots.txt URL, exactly once. */
  lemma MissFetchesOnce(cache: map<string, Entry>, timeout: int, url: string, userAgent: string, urls: UrlParser,
                        now: int, storedAt: int, fetch: string -> Fetch, parse: (string, string) -> Ruleset)
    ensures var d := Check(cache, timeout, url, userAgent, urls, now, storedAt, fetch, parse);
      d.fetched == (if RobotsUrl(urls, url).Some? && !Fresh(cache, RobotsUrl(urls, url).value, now, timeout)
                    then [RobotsUrl(urls, url).value] else [])
  {
  }

  /**
   * A 404, an empty body, any other fetch error or an unparsable URL all
   * answer "allowed" and leave the cache as it was.
   */
  lemma FailuresAllowAndKeepCache(cache: map<string, Entry>, timeout: int, url: string, userAgent: string, urls: UrlParser,
                                  now: int, storedAt: int, fetch: string -> Fetch, parse: (string, string) -> Ruleset)
    requires RobotsUrl(urls, url).None?
      || (!Fresh(cache, RobotsUrl(urls, url).value, now, timeout)
          && (fetch(RobotsUrl(urls, url).value).Failed?
              || fetch(RobotsUrl(urls, url).value).NotFound?
              || fetch(RobotsUrl(urls, url).value) == Body("")))
    ensures var d := Check(cache, timeout, url, userAgent, urls, now, storedAt, fetch, parse);
      d.allowed && d.cache == cache
  {
  }

  /**
   * A fetched, non-empty robots.txt is parsed, stored under its URL with the
   * time of storing, and answers the call; no other key changes.
   */
  lemma FetchedRulesetIsCached(cache: map<string, Entry>, timeout: int, url: string, userAgent: string, urls: UrlParser,
                               now: int, storedAt: int, fetch: string -> Fetch, parse: (string, string) -> Ruleset)
    requires RobotsUrl(urls, url).Some?
    requires var key := RobotsUrl(urls, url).value;
      !Fresh(cache, key, now, timeout) && fetch(key).Body? && fetch(key).data != ""
    ensures var key := RobotsUrl(urls, url).value;
      var d := Check(cache, timeout, url, userAgent, urls, now, storedAt, fetch, parse);
      var robots := parse(key, fetch(key).data);
      d.allowed == robots.allows(url, userAgent)
      && key in d.cache && d.cache[key] == Entry(robots, storedAt)
      && d.cache.Keys == cache.Keys + {key}
      && (forall k :: k in cache && k != key ==> d.cache[k] == cache[k])
  {
  }

  /** Whatever happens, a call changes at most the entry for its own robots.txt URL. */
  lemma OnlyOwnKeyChanges(cache: map<string, Entry>, timeout: int, url: string, userAgent: string, urls: UrlParser,
                          now: int, storedAt: int, fetch: string -> Fetch, parse: (string, string) -> Ruleset)
    ensures var d := Check(cache, timeout, url, userAgent, urls, now, storedAt, fetch, parse);
      d.cache == cache
      || (RobotsUrl(urls, url).Some? && d.cache == cache[RobotsUrl(urls, url).value := d.cache[RobotsUrl(urls, url).value]])
  {
  }

  /** A "disallowed" answer always comes from a ruleset that is in the cache after the call. */
  lemma DenialComesFromCachedRuleset(cache: map<string, Entry>, timeout: int, url: string, userAgent: string, urls: UrlParser,
                                     now: int, storedAt: int, fetch: string -> Fetch, parse: (string, string) -> Ruleset)
    ensures var d := Check(cache, timeout, url, userAgent, urls, now, storedAt, fetch, parse);
      !d.allowed ==> (RobotsUrl(urls, url).Some? && RobotsUrl(urls, url).value in d.cache
        && !d.cache[RobotsUrl(urls, url).value].robots.allows(url, userAgent))
  {
  }

  /**
   * A ruleset stored at `storedAt` answers a second call for the same URL
   * made before it expires, without a second fetch, and with the same answer.
   */
  lemma {:induction false} SecondCallWithinTimeoutHitsCache(cache: map<string, Entry>, timeout: int, url: string, userAgent: string,
                                       urls: UrlParser, now: int, storedAt: int, later: int, laterStoredAt: int,
                                       fetch: string -> Fetch, parse: (string, string) -> Ruleset)
    requires RobotsUrl(urls, url).Some?
    requires var key := RobotsUrl(urls, url).value;
      !Fresh(cache, key, now, timeout) && fetch(key).Body? && fetch(key).data != ""
    requires later - storedAt < timeout
    ensures var first := Check(cache, timeout, url, userAgent, urls, now, storedAt, fetch, parse);
      var second := Check(first.cache, timeout, url, userAgent, urls, later, laterStoredAt, fetch, parse);
      second.fetched == [] && second.cache == first.cache && second.allowed == first.allowed
  {
    FetchedRulesetIsCached(cache, timeout, url, userAgent, urls, now, storedAt, fetch, parse);
  }

  /** The `RobotsChecker` object: its cache and its timeout. */
  class RobotsChecker {
    var cache: map<string, Entry>
    const cacheTimeout: int

    constructor()
      ensures cache == map[] && cacheTimeout == CacheTimeout
    {
      cache := map[];
      cacheTimeout := CacheTimeout;
    }

    /** `isAllowed`: answers from a fresh cache entry, else fetches, parses and caches; fails open. */
    method IsAllowed(url: string, userAgent: string, urls: UrlParser, now: int, storedAt: int,
                     fetch: string -> Fetch, parse: (string, string) -> Ruleset)
      returns (allowed: bool, fetched: seq<string>)
      modifies this
      ensures Decision(allowed, cache, fetched)
        == Check(old(cache), cacheTimeout, url, userAgent, urls, now, storedAt, fetch, parse)
    {
      fetched := [];
      var robotsUrl := RobotsUrl(urls, url);
      if robotsUrl.None? {
        return true, fetched;
      }
      var key := robotsUrl.value;
      if key in cache {
        var cached := cache[key];
        if now - cached.timestamp < cacheTimeout {
          return cached.robots.allows(url, userAgent), fetched;
        }
      }
      var content := GetRobotsContent(fetch(key));
      fetched := [key];
      if content.Thrown? || Falsy(content.data) {
        return true, fetched;
      }
      var robots := parse(key, content.data.value);
      cache := cache[key := Entry(robots, storedAt)];
      allowed := robots.allows(url, userAgent);
    }

    /** `clearCache`: every entry is dropped. */
    method ClearCache()
      modifies this
      ensures cache == map[]
    {
      cache := map[];
    }
  }
}
