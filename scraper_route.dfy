/**
 * The two HTTP handlers of the scraper API: `POST /scrape` (validate the
 * request, ask the robots gate, fetch, extract, validate and annotate the
 * articles, compute statistics, classify failures) and `GET /robots-check`.
 * The HTTP exchange itself is a parameter: the outcome of fetching the page,
 * and the HTML loader that turns the body into a `Document`.
 */
module ScraperRoute {
  import opened Wrappers
  import opened Seqs
  import opened Platform
  import opened Articles
  import opened CheerioHelper
  import opened Robots

  /** A string's JavaScript truthiness. */
  predicate Truthy(s: string) { s != "" }

  /** The route's filter: a headline longer than 5 characters. */
  predicate HasHeadline(a: Article) { Truthy(a.headline) && |a.headline| > 5 }

  /** An article as the response carries it: fields with defaults, plus completeness metadata. */
  datatype Validated = Validated(
    headline: string,
    author: string,
    publishDate: string,
    source: string,
    url: string,
    summary: string,
    image: string,
    hasAuthor: bool,
    hasDate: bool,
    hasSummary: bool,
    completeness: nat)

  function Indicator(b: bool): nat { if b then 1 else 0 }

  /** `[headline, author, publishDate, source].filter(Boolean).length`. */
  function Completeness(a: Article): (n: nat)
    ensures n == Indicator(Truthy(a.headline)) + Indicator(Truthy(a.author))
      + Indicator(Truthy(a.publishDate)) + Indicator(Truthy(a.source))
    ensures n <= 4
  {
    FilterFourLength(a.headline, a.author, a.publishDate, a.source, Truthy);
    |Filter([a.headline, a.author, a.publishDate, a.source], Truthy)|
  }

  /** The `.map` step: defaults for the empty fields and the completeness metadata. */
  function Enhance(a: Article, pageUrl: string, domain: string): (v: Validated)
    ensures v.hasAuthor <==> Truthy(a.author)
    ensures v.hasDate <==> Truthy(a.publishDate)
    ensures v.hasSummary <==> Truthy(a.summary)
    ensures v.completeness == Completeness(a) && v.completeness <= 4
    ensures v.author == a.author && v.publishDate == a.publishDate && v.summary == a.summary && v.image == a.image
    ensures Truthy(a.headline) ==> v.headline == a.headline
    ensures !Truthy(a.headline) ==> v.headline == "No headline available"
    ensures Truthy(a.source) ==> v.source == a.source
    ensures !Truthy(a.source) ==> v.source == domain
    ensures Truthy(a.url) ==> v.url == a.url
    ensures !Truthy(a.url) ==> v.url == pageUrl
    ensures Truthy(v.headline) && (Truthy(v.source) || domain == "") && (Truthy(v.url) || pageUrl == "")
  {
    Validated(
      if Truthy(a.headline) then a.headline else "No headline available",
      a.author,
      a.publishDate,
      if Truthy(a.source) then a.source else domain,
      if Truthy(a.url) then a.url else pageUrl,
      a.summary,
      a.image,
      Truthy(a.author),
      Truthy(a.publishDate),
      Truthy(a.summary),
      Completeness(a))
  }

  /** The filter-then-map pipeline over the extracted articles. */
  function Validate(articles: seq<Article>, pageUrl: string, domain: string): (vs: seq<Validated>)
    ensures |vs| == |Filter(articles, HasHeadline)|
    ensures forall i :: 0 <= i < |vs| ==> vs[i] == Enhance(Filter(articles, HasHeadline)[i], pageUrl, domain)
  {
    var kept := Filter(articles, HasHeadline);
    seq(|kept|, i requires 0 <= i < |kept| => Enhance(kept[i], pageUrl, domain))
  }

  /** Only articles with a headline longer than 5 survive, in their original order, headline unchanged. */
  lemma ValidatedHeadlines(articles: seq<Article>, pageUrl: string, domain: string)
    ensures var kept := Filter(articles, HasHeadline);
      var vs := Validate(articles, pageUrl, domain);
      IsSubseq(kept, articles)
      && (forall i :: 0 <= i < |articles| && HasHeadline(articles[i]) ==> articles[i] in kept)
      && (forall i :: 0 <= i < |vs| ==> vs[i].headline == kept[i].headline && |vs[i].headline| > 5)
  {
    FilterKeepsAll(articles, HasHeadline);
  }

  /** The engine's articles all have headlines longer than 10, so the route drops none of them. */
  lemma RouteKeepsEveryExtractedArticle(env: Env, pageUrl: string)
    ensures Filter(Extracted(env, pageUrl), HasHeadline) == Extracted(env, pageUrl)
  {
    var r := Extracted(env, pageUrl);
    assert forall i :: 0 <= i < |r| ==> r[i] in r;
    FilterAllPass(r, HasHeadline);
  }

  /** The response's `statistics` object; `averageCompleteness` is None where the code divides 0 by 0. */
  datatype Statistics = Statistics(withAuthor: nat, withDate: nat, withSummary: nat, averageCompleteness: Option<real>)

  /** Every article's completeness is in 0..4, as `Enhance` guarantees. */
  predicate CompletenessBounded(vs: seq<Validated>) {
    forall i :: 0 <= i < |vs| ==> vs[i].completeness <= 4
  }

  function SumCompleteness(vs: seq<Validated>): (s: nat)
    ensures CompletenessBounded(vs) ==> s <= 4 * |vs|
  {
    if vs == [] then 0 else SumCompleteness(vs[..|vs| - 1]) + vs[|vs| - 1].completeness
  }

  lemma AverageAtMostFour(sum: nat, n: nat)
    requires 0 < n && sum <= 4 * n
    ensures 0.0 <= (sum as real) / (n as real) <= 4.0
  {
    assert (sum as real) <= 4.0 * (n as real);
  }

  predicate WithAuthor(v: Validated) { v.hasAuthor }
  predicate WithDate(v: Validated) { v.hasDate }
  predicate WithSummary(v: Validated) { v.hasSummary }

  function Stats(vs: seq<Validated>): (s: Statistics)
    ensures s.withAuthor == |Filter(vs, WithAuthor)| && s.withDate == |Filter(vs, WithDate)|
      && s.withSummary == |Filter(vs, WithSummary)|
    ensures s.withAuthor <= |vs| && s.withDate <= |vs| && s.withSummary <= |vs|
    ensures vs != [] ==> s.averageCompleteness == Some(SumCompleteness(vs) as real / |vs| as real)
    ensures s.averageCompleteness.None? <==> vs == []
    ensures s.averageCompleteness.Some? && CompletenessBounded(vs) ==>
      0.0 <= s.averageCompleteness.value <= 4.0
  {
    var average: Option<real> :=
      if vs == [] then None
      else
        var sum := SumCompleteness(vs);
        if CompletenessBounded(vs) then AverageAtMostFour(sum, |vs|); Some(sum as real / |vs| as real)
        else Some(sum as real / |vs| as real);
    Statistics(|Filter(vs, WithAuthor)|, |Filter(vs, WithDate)|, |Filter(vs, WithSummary)|, average)
  }

  /** The response body: an error, or the success payload. */
  datatype Body =
    | ErrorBody(error: string, robotsBlocked: bool, details: Option<string>)
    | Success(articles: seq<Validated>, totalFound: nat, source: string, scrapedAt: string, statistics: Statistics)

  datatype Response = Response(status: int, body: Body)

  function Fail(status: int, message: string): Response {
    Response(status, ErrorBody(message, false, None))
  }

  /** What the page fetch failed with: its `code`, its HTTP status if any, its message. */
  datatype FetchError = FetchError(code: string, responseStatus: Option<int>, message: string)

  /** What `axios.get` of the page does. */
  datatype PageFetch = Page(html: string) | PageError(err: FetchError)

  /** The `catch` block: the first matching test decides the status; details are shown only in development. */
  function Classify(err: FetchError, development: bool): (r: Response)
    ensures r.body.ErrorBody? && !r.body.robotsBlocked
    ensures r.status == 404 <==> err.code == "ENOTFOUND"
    ensures r.status == 503 <==> err.code == "ECONNREFUSED"
    ensures r.status == 403 <==> err.code != "ENOTFOUND" && err.code != "ECONNREFUSED" && err.responseStatus == Some(403)
    ensures r.status == 500 <==> !(r.status in {403, 404, 503})
    ensures r.body.details.Some? <==> r.status == 500 && development
    ensures r.body.details.Some? ==> r.body.details.value == err.message
    ensures r.status == 404 ==> r.body.error == "Website not found"
    ensures r.status == 503 ==> r.body.error == "Connection refused by server"
    ensures r.status == 403 ==> r.body.error == "Access forbidden by website"
    ensures r.status == 500 ==> r.body.error == "Failed to scrape website"
  {
    if err.code == "ENOTFOUND" then Fail(404, "Website not found")
    else if err.code == "ECONNREFUSED" then Fail(503, "Connection refused by server")
    else if err.responseStatus == Some(403) then Fail(403, "Access forbidden by website")
    else Response(500, ErrorBody("Failed to scrape website", false, if development then Some(err.message) else None))
  }

  /** The success response for the articles the engine extracted from `pageUrl`. */
  function SuccessResponse(articles: seq<Article>, pageUrl: string, urls: UrlParser, scrapedAt: string): (r: Response)
    ensures r.status == 200 && r.body.Success?
    ensures r.body.source == ExtractDomain(urls, pageUrl) && r.body.scrapedAt == scrapedAt
    ensures r.body.articles == Validate(articles, pageUrl, ExtractDomain(urls, pageUrl))
    ensures r.body.statistics == Stats(r.body.articles)
    ensures r.body.totalFound == |r.body.articles| <= |articles|
    ensures r.body.statistics.withAuthor <= r.body.totalFound
    ensures r.body.statistics.withDate <= r.body.totalFound
    ensures r.body.statistics.withSummary <= r.body.totalFound
    ensures r.body.statistics.averageCompleteness.Some? ==> 0.0 <= r.body.statistics.averageCompleteness.value <= 4.0
    ensures r.body.statistics.averageCompleteness.None? <==> r.body.articles == []
  {
    var domain := ExtractDomain(urls, pageUrl);
    var vs := Validate(articles, pageUrl, domain);
    Response(200, Success(vs, |vs|, domain, scrapedAt, Stats(vs)))
  }

  /** What follows a robots "allowed": the page fetch, then extraction or the error classification. */
  function PageOutcome(page: PageFetch, pageUrl: string, urls: UrlParser, load: string -> Document, date: DateParser,
                       development: bool, scrapedAt: string): (r: Response)
    ensures page.PageError? ==> r == Classify(page.err, development)
    ensures page.Page? ==> r.status == 200 && r.body.Success? && r.body.totalFound <= MaxArticles
    ensures page.Page? ==>
      var extracted := Extracted(Env(load(page.html), urls, date), pageUrl);
      r.body.articles == Validate(extracted, pageUrl, ExtractDomain(urls, pageUrl))
      && |r.body.articles| == |extracted|
    ensures r.status in {200, 403, 404, 500, 503}
    ensures r.body.ErrorBody? <==> page.PageError?
  {
    match page
    case PageError(err) => Classify(err, development)
    case Page(html) =>
      RouteKeepsEveryExtractedArticle(Env(load(html), urls, date), pageUrl);
      SuccessResponse(Extracted(Env(load(html), urls, date), pageUrl), pageUrl, urls, scrapedAt)
  }

  /** A request URL is missing or empty. */
  predicate Missing(url: Option<string>) { url.None? || url.value == "" }

  /**
   * `POST /scrape`. `now`, `storedAt` and `robotsFetch`, `parse` feed the
   * robots gate; `page` is what fetching the page does; `load` is
   * `cheerio.load`; `pageFetched` says whether the page was requested.
   */
  method Scrape(checker: RobotsChecker, url: Option<string>, urls: UrlParser, now: int, storedAt: int,
                robotsFetch: string -> Fetch, parse: (string, string) -> Ruleset,
                page: PageFetch, load: string -> Document, date: DateParser, development: bool, scrapedAt: string)
    returns (response: Response, pageFetched: bool)
    modifies checker
    ensures Missing(url) ==>
      response == Fail(400, "URL is required") && !pageFetched && checker.cache == old(checker.cache)
    ensures !Missing(url) && urls.parse(url.value).None? ==>
      response == Fail(400, "Invalid URL format") && !pageFetched && checker.cache == old(checker.cache)
    ensures !Missing(url) && urls.parse(url.value).Some? ==>
      var d := Check(old(checker.cache), checker.cacheTimeout, url.value, DefaultUserAgent, urls, now, storedAt, robotsFetch, parse);
      checker.cache == d.cache && (pageFetched <==> d.allowed)
      && (!d.allowed ==> response == Response(403, ErrorBody("Scraping not allowed by robots.txt", true, None)))
      && (d.allowed ==> response == PageOutcome(page, url.value, urls, load, date, development, scrapedAt))
  {
    pageFetched := false;
    if Missing(url) {
      return Fail(400, "URL is required"), pageFetched;
    }
    var pageUrl := url.value;
    if urls.parse(pageUrl).None? {
      return Fail(400, "Invalid URL format"), pageFetched;
    }
    var allowed, _ := checker.IsAllowed(pageUrl, DefaultUserAgent, urls, now, storedAt, robotsFetch, parse);
    if !allowed {
      return Response(403, ErrorBody("Scraping not allowed by robots.txt", true, None)), pageFetched;
    }
    pageFetched := true;
    match page {
      case PageError(err) =>
        response := Classify(err, development);
      case Page(html) =>
        var env := Env(load(html), urls, date);
        var articles := ExtractArticles(env, pageUrl);
        response := SuccessResponse(articles, pageUrl, urls, scrapedAt);
    }
  }

  /** The reply of `GET /robots-check`. */
  datatype RobotsReply =
      /** 400 `{ error: "URL parameter is required" }`. */
    | MissingParameter
      /** 200 `{ allowed, robotsUrl, robotsContent }`. */
    | Checked(allowed: bool, robotsUrl: string, robotsContent: Option<string>)
      /** 200 `{ allowed: true, error: "Could not check robots.txt", fallback: true }`. */
    | Fallback

  /** At most the first 500 characters of a truthy robots.txt body, else null. */
  function ContentExcerpt(content: Option<string>): (r: Option<string>)
    ensures r.None? <==> Falsy(content)
    ensures r.Some? ==> |r.value| <= 500 && r.value <= content.value
    ensures r.Some? ==> |r.value| == if |content.value| < 500 then |content.value| else 500
  {
    if Falsy(content) then None else Some(Take(content.value, 500))
  }

  /**
   * `GET /robots-check`: asks the gate, then fetches the robots.txt once
   * more to show an excerpt; a bad URL or a fetch error gives the fallback
   * reply, which says "allowed".
   */
  method RobotsCheck(checker: RobotsChecker, url: Option<string>, urls: UrlParser, now: int, storedAt: int,
                     fetch: string -> Fetch, parse: (string, string) -> Ruleset)
    returns (reply: RobotsReply)
    modifies checker
    ensures Missing(url) ==> reply == MissingParameter && checker.cache == old(checker.cache)
    ensures !Missing(url) && RobotsUrl(urls, url.value).None? ==> reply == Fallback && checker.cache == old(checker.cache)
    ensures !Missing(url) && RobotsUrl(urls, url.value).Some? ==>
      var key := RobotsUrl(urls, url.value).value;
      var d := Check(old(checker.cache), checker.cacheTimeout, url.value, DefaultUserAgent, urls, now, storedAt, fetch, parse);
      checker.cache == d.cache
      && reply == match GetRobotsContent(fetch(key))
        case Thrown => Fallback
        case Content(content) => Checked(d.allowed, key, ContentExcerpt(content))
  {
    if Missing(url) {
      return MissingParameter;
    }
    var robotsUrl := RobotsUrl(urls, url.value);
    if robotsUrl.None? {
      return Fallback;
    }
    var allowed, _ := checker.IsAllowed(url.value, DefaultUserAgent, urls, now, storedAt, fetch, parse);
    var content := GetRobotsContent(fetch(robotsUrl.value));
    match content {
      case Thrown => reply := Fallback;
      case Content(data) => reply := Checked(allowed, robotsUrl.value, ContentExcerpt(data));
    }
  }
}
