/**
 * The article-extraction engine: container tiers tried in priority order, a
 * first-valid-selector cascade per field, the heading-scan fallback, and
 * case-insensitive de-duplication, over an already parsed page.
 */
module CheerioHelper {
  import opened Wrappers
  import opened Text
  import opened Seqs
  import opened Platform
  import opened Articles

  /** The collaborators one extraction consults. */
  datatype Env = Env(doc: Document, urls: UrlParser, date: DateParser)

  const MaxArticles := 20

  const ArticleSelectors: seq<string> := [
    "article", ".article", ".post", ".news-item", ".story", ".entry",
    "[class*=\"article\"]", "[class*=\"post\"]", "[class*=\"news\"]", "[class*=\"story\"]"]

  const HeadlineSelectors: seq<string> := [
    "h1", "h2", "h3", ".headline", ".title", ".entry-title", ".post-title",
    ".article-title", ".story-title", "[class*=\"headline\"]", "[class*=\"title\"]",
    "[data-testid*=\"headline\"]", "[data-testid*=\"title\"]",
    "header h1", "header h2", "header h3"]

  const AuthorSelectors: seq<string> := [
    ".author", ".byline", ".writer", ".journalist", ".reporter", ".post-author",
    ".article-author", ".story-author", "[class*=\"author\"]", "[class*=\"byline\"]",
    "[class*=\"writer\"]", "[rel=\"author\"]", "[data-testid*=\"author\"]",
    "[data-testid*=\"byline\"]", ".author-name", ".by-author", ".written-by"]

  const DateSelectors: seq<string> := [
    "time[datetime]", ".date", ".published", ".publish-date", ".publication-date",
    ".timestamp", ".post-date", ".article-date", ".story-date", "[class*=\"date\"]",
    "[class*=\"time\"]", "[class*=\"publish\"]", "[data-testid*=\"date\"]",
    "[data-testid*=\"time\"]", ".meta-date", ".entry-date"]

  const SummarySelectors: seq<string> := [
    ".summary", ".excerpt", ".description", ".lead",
    "[class*=\"summary\"]", "[class*=\"excerpt\"]", "p"]

  const SourceSelectors: seq<string> := [
    ".source", ".publication", ".site-name", ".brand", ".logo",
    "[class*=\"source\"]", "[class*=\"publication\"]", "[class*=\"brand\"]",
    "header .site-title", ".masthead", ".header-brand"]

  const HeadingSelectors: seq<string> := ["h1", "h2", "h3"]

  const NoHeadline := "No headline found"

  /** JavaScript's `a || b` on strings. */
  function Or(a: string, b: string): string {
    if a != "" then a else b
  }

  // ---------------------------------------------------------------------------
  // Field extractors: one generic "first selector whose text passes" cascade

  /** The article fields found by a selector cascade. */
  datatype Field = Headline | Author | PublishDate | Summary | SourceName

  function Selectors(f: Field): seq<string> {
    match f
    case Headline => HeadlineSelectors
    case Author => AuthorSelectors
    case PublishDate => DateSelectors
    case Summary => SummarySelectors
    case SourceName => SourceSelectors
  }

  /** `isValidDate`: the string parses as a date. */
  predicate IsValidDate(env: Env, s: string) {
    env.date(s).Some?
  }

  /** Case-insensitive `startsWith` against a lower-case literal. */
  predicate StartsWithIgnoringCase(t: string, lower: string) {
    |lower| <= |t| && ToLower(t[..|lower|]) == lower
  }

  /**
   * `t.replace(/^(a1|a2|...)\s*\/i, "")`: the first alternative that matches
   * at the start is removed together with the whitespace after it.
   */
  function StripLeading(t: string, alternatives: seq<string>): (r: string)
    ensures |r| <= |t| && r == t[|t| - |r|..]
    ensures (forall k :: 0 <= k < |alternatives| ==> !StartsWithIgnoringCase(t, alternatives[k])) ==> r == t
    ensures forall k ::
              0 <= k < |alternatives| && StartsWithIgnoringCase(t, alternatives[k]) &&
              (forall j :: 0 <= j < k ==> !StartsWithIgnoringCase(t, alternatives[j])) ==>
                r == TrimStart(t[|alternatives[k]|..])
  {
    if alternatives == [] then t
    else if StartsWithIgnoringCase(t, alternatives[0]) then TrimStart(t[|alternatives[0]|..])
    else
      assert forall k :: 1 <= k < |alternatives| ==> alternatives[1..][k - 1] == alternatives[k];
      StripLeading(t, alternatives[1..])
  }

  /** The alternatives of `/^(by|author:?|written by|reporter:?)\s*\/i`, in the order the regex tries them. */
  const RolePrefixes: seq<string> := ["by", "author:", "author", "written by", "reporter:", "reporter"]

  /**
   * "author:" is tried before "author", so a byline "Author: Jane" loses its
   * colon as well, and the whitespace after it.
   */
  lemma AuthorColonStripped(t: string)
    requires StartsWithIgnoringCase(t, "author:")
    ensures StripLeading(t, RolePrefixes) == TrimStart(t[7..])
  {
    assert ToLower(t[..2])[0] == ToLower(t[..7])[0] == 'a';
    assert !StartsWithIgnoringCase(t, RolePrefixes[0]);
    assert StartsWithIgnoringCase(t, RolePrefixes[1]);
  }

  predicate NoLineTerminator(s: string) {
    forall i :: 0 <= i < |s| ==> !IsLineTerminator(s[i])
  }

  /** `/\s*-\s*.*$/` matches at the start of `s` (a `.` does not cross a line terminator). */
  predicate DashTail(s: string) {
    var r := TrimStart(s);
    r != [] && r[0] == '-' && NoLineTerminator(TrimStart(r[1..]))
  }

  /** `s.replace(/\s*-\s*.*$/, "")`: everything from the leftmost match on is removed. */
  function CutAtDash(s: string): (r: string)
    ensures |r| <= |s| && r <= s
  {
    if s == [] then []
    else if DashTail(s) then []
    else [s[0]] + CutAtDash(s[1..])
  }

  /** The pattern matches starting at position `p` of `s`. */
  predicate DashAt(s: string, p: int) {
    0 <= p <= |s| && DashTail(s[p..])
  }

  /** The cut is at the leftmost position where the pattern matches, and there is a match wherever it cuts. */
  lemma {:induction false} CutAtDashLeftmost(s: string)
    ensures |CutAtDash(s)| < |s| ==> DashAt(s, |CutAtDash(s)|)
    ensures forall p :: 0 <= p < |CutAtDash(s)| ==> !DashAt(s, p)
    decreases |s|
  {
    if s != [] && !DashTail(s) {
      var t := s[1..];
      CutAtDashLeftmost(t);
      var r, rest := CutAtDash(s), CutAtDash(t);
      assert |r| == |rest| + 1;
      assert |r| < |s| ==> s[|r|..] == t[|rest|..];
      forall p | 0 <= p < |r| ensures !DashAt(s, p) {
        if p > 0 {
          assert s[p..] == t[p - 1..];
          assert !DashAt(t, p - 1);
        }
      }
    }
  }

  /** On text without line terminators, no hyphen survives the cut. */
  lemma NoLineTerminatorSuffix(t: string, k: nat)
    requires NoLineTerminator(t) && k <= |t|
    ensures NoLineTerminator(t[k..])
  {
    forall i | 0 <= i < |t[k..]| ensures !IsLineTerminator(t[k..][i]) {
      assert t[k..][i] == t[k + i];
    }
  }

  /** On text without line terminators, a leading hyphen always starts a match. */
  lemma HyphenStartsDashTail(s: string)
    ensures (s != [] && s[0] == '-' && NoLineTerminator(s)) ==> DashTail(s)
  {
    if s != [] && s[0] == '-' && NoLineTerminator(s) {
      assert TrimStart(s) == s by {
        assert !IsSpace(s[0]);
      }
      NoLineTerminatorSuffix(s, 1);
      TrimStartNoLineTerminator(s[1..]);
    }
  }

  lemma TrimStartNoLineTerminator(t: string)
    requires NoLineTerminator(t)
    ensures NoLineTerminator(TrimStart(t))
  {
    NoLineTerminatorSuffix(t, |t| - |TrimStart(t)|);
  }

  lemma {:induction false} CutAtDashRemovesHyphens(s: string)
    requires NoLineTerminator(s)
    ensures '-' !in CutAtDash(s)
    decreases |s|
  {
    if s != [] && !DashTail(s) {
      NoLineTerminatorSuffix(s, 1);
      HyphenStartsDashTail(s);
      CutAtDashRemovesHyphens(s[1..]);
      assert CutAtDash(s) == [s[0]] + CutAtDash(s[1..]);
    }
  }

  /** A single-spaced text has no line terminator: its only whitespace is U+0020. */
  lemma SingleSpacedNoLineTerminator(t: string)
    requires SingleSpaced(t)
    ensures NoLineTerminator(t)
  {
    forall i | 0 <= i < |t| ensures !IsLineTerminator(t[i]) {
      if IsLineTerminator(t[i]) { assert IsSpace(t[i]); }
    }
  }

  /** The author text as `extractAuthor` rewrites it before validating its length. */
  function AuthorText(raw: string): (r: string)
    ensures '-' !in r
  {
    var cleaned := CleanText(raw);
    var stripped := StripLeading(cleaned, RolePrefixes);
    SingleSpacedNoLineTerminator(cleaned);
    NoLineTerminatorSuffix(cleaned, |cleaned| - |stripped|);
    CutAtDashRemovesHyphens(stripped);
    CutAtDash(stripped)
  }

  /** A candidate date string that is non-empty and parses. */
  predicate UsableDate(env: Env, s: string) {
    s != "" && IsValidDate(env, s)
  }

  /**
   * The value a date element offers: its `datetime`, then `data-date`/`data-time`,
   * then its text; the first usable one wins and a later one is never consulted.
   */
  function DateValue(env: Env, h: Elem): (r: Option<string>)
    ensures r.Some? ==> r.value != "" && IsValidDate(env, r.value)
    ensures var datetime := env.doc.attr(h, "datetime");
      var dataDate := Or(env.doc.attr(h, "data-date"), env.doc.attr(h, "data-time"));
      var text := CleanText(env.doc.text(h));
      (UsableDate(env, datetime) ==> r == Some(datetime))
      && (!UsableDate(env, datetime) && UsableDate(env, dataDate) ==> r == Some(dataDate))
      && (!UsableDate(env, datetime) && !UsableDate(env, dataDate) && UsableDate(env, text) ==> r == Some(text))
      && (r.None? <==> !UsableDate(env, datetime) && !UsableDate(env, dataDate) && !UsableDate(env, text))
  {
    var datetime := env.doc.attr(h, "datetime");
    if UsableDate(env, datetime) then Some(datetime)
    else
      var dataDate := Or(env.doc.attr(h, "data-date"), env.doc.attr(h, "data-time"));
      if UsableDate(env, dataDate) then Some(dataDate)
      else
        var text := CleanText(env.doc.text(h));
        if UsableDate(env, text) then Some(text) else None
  }

  /** What one selector yields for field `f`: the first match's value, if it passes the field's test. */
  function Probe(env: Env, e: Elem, f: Field, sel: string): (r: Option<string>)
    ensures r.Some? ==> match f
      case Headline => 10 < |r.value| < 300
      case Author => 2 < |r.value| < 100 && '-' !in r.value
      case PublishDate => IsValidDate(env, r.value)
      case Summary => 50 < |r.value| <= 300
      case SourceName => 1 < |r.value| < 50
    ensures env.doc.find(e, sel) == [] ==> r.None?
    ensures env.doc.find(e, sel) != [] ==>
      var h := env.doc.find(e, sel)[0];
      var t := CleanText(env.doc.text(h));
      match f
      case Headline => (r.Some? <==> 10 < |t| < 300) && (r.Some? ==> r.value == t)
      case Author => (r.Some? <==> 2 < |AuthorText(env.doc.text(h))| < 100) && (r.Some? ==> r.value == AuthorText(env.doc.text(h)))
      case PublishDate => r == DateValue(env, h)
      case Summary => (r.Some? <==> |t| > 50) && (r.Some? ==> r.value == Prefix(t, 300))
      case SourceName => (r.Some? <==> 1 < |t| < 50) && (r.Some? ==> r.value == t)
  {
    var hits := env.doc.find(e, sel);
    if hits == [] then None
    else
      var h := hits[0];
      match f
      case Headline =>
        var t := CleanText(env.doc.text(h));
        if 10 < |t| < 300 then Some(t) else None
      case Author =>
        var t := AuthorText(env.doc.text(h));
        if 2 < |t| < 100 then Some(t) else None
      case PublishDate => DateValue(env, h)
      case Summary =>
        var t := CleanText(env.doc.text(h));
        if |t| > 50 then Some(Prefix(t, 300)) else None
      case SourceName =>
        var t := CleanText(env.doc.text(h));
        if 1 < |t| < 50 then Some(t) else None
  }

  /**
   * The selectors of `sels` are tried in order; the first one that yields a
   * value decides, and the ones after it are never consulted.
   */
  function Cascade(env: Env, e: Elem, f: Field, sels: seq<string>): (r: Option<string>)
    ensures r.None? <==> forall i :: 0 <= i < |sels| ==> Probe(env, e, f, sels[i]).None?
    ensures r.Some? ==> exists i :: (0 <= i < |sels| && Probe(env, e, f, sels[i]) == r
      && forall j :: 0 <= j < i ==> Probe(env, e, f, sels[j]).None?)
  {
    if sels == [] then None
    else if Probe(env, e, f, sels[0]).Some? then Probe(env, e, f, sels[0])
    else
      var r := Cascade(env, e, f, sels[1..]);
      assert forall i :: 1 <= i < |sels| ==> sels[1..][i - 1] == sels[i];
      assert r.Some? ==> exists i :: (1 <= i < |sels| && Probe(env, e, f, sels[i]) == r
        && forall j :: 0 <= j < i ==> Probe(env, e, f, sels[j]).None?);
      r
  }

  function FieldResult(env: Env, e: Elem, f: Field): Option<string> {
    Cascade(env, e, f, Selectors(f))
  }

  /**
   * `extractHeadline`: the first headline selector's text of length 11..299,
   * else the element's whole text cut to 150 if longer than 10, else the
   * placeholder. Every outcome is longer than 10 characters, the placeholder
   * included (it has 17), so the caller's `length > 10` test always passes.
   */
  function ExtractHeadline(env: Env, e: Elem): (r: string)
    ensures 10 < |r| < 300
    ensures FieldResult(env, e, Headline).Some? ==> r == FieldResult(env, e, Headline).value
    ensures FieldResult(env, e, Headline).None? && |CleanText(env.doc.text(e))| > 10 ==>
      |r| == (if |CleanText(env.doc.text(e))| < 150 then |CleanText(env.doc.text(e))| else 150) && r <= CleanText(env.doc.text(e))
    ensures FieldResult(env, e, Headline).None? && |CleanText(env.doc.text(e))| <= 10 ==> r == NoHeadline && |r| == 17
  {
    match FieldResult(env, e, Headline)
    case Some(t) => t
    case None =>
      var text := CleanText(env.doc.text(e));
      if |text| > 10 then Prefix(text, 150) else NoHeadline
  }

  /** `extractAuthor`: "" or 3..99 characters with no hyphen, role prefix removed. */
  function ExtractAuthor(env: Env, e: Elem): (r: string)
    ensures r == "" || (2 < |r| < 100 && '-' !in r)
    ensures r != "" <==> FieldResult(env, e, Author).Some?
    ensures FieldResult(env, e, Author).Some? ==> r == FieldResult(env, e, Author).value
  {
    match FieldResult(env, e, Author)
    case Some(t) => t
    case None => ""
  }

  /** `extractDate`: "" or a string the date parser accepts. */
  function ExtractDate(env: Env, e: Elem): (r: string)
    ensures r == "" || IsValidDate(env, r)
    ensures r != "" <==> FieldResult(env, e, PublishDate).Some?
    ensures FieldResult(env, e, PublishDate).Some? ==> r == FieldResult(env, e, PublishDate).value
  {
    match FieldResult(env, e, PublishDate)
    case Some(t) => t
    case None => ""
  }

  /** `extractSummary`: "" or 51..300 characters. */
  function ExtractSummary(env: Env, e: Elem): (r: string)
    ensures r == "" || 50 < |r| <= 300
    ensures r != "" <==> FieldResult(env, e, Summary).Some?
    ensures FieldResult(env, e, Summary).Some? ==> r == FieldResult(env, e, Summary).value
  {
    match FieldResult(env, e, Summary)
    case Some(t) => t
    case None => ""
  }

  /** `$("title").text()`. */
  function PageTitle(doc: Document): string {
    SelectionText(doc, doc.select("title"))
  }

  /** The source name the page title offers: its trimmed last " - " segment, if there are two or more and it has 2..49 characters. */
  function TitleSource(doc: Document): (r: Option<string>)
    ensures r.Some? ==> 1 < |r.value| < 50 && !IsSpace(r.value[0]) && !IsSpace(r.value[|r.value| - 1])
    ensures r.Some? ==> Contains(PageTitle(doc), " - ")
    ensures var t := PageTitle(doc);
      var parts := Split(t, " - ");
      (r.Some? <==> t != "" && |parts| > 1 && 1 < |Trim(parts[|parts| - 1])| < 50)
      && (r.Some? ==> r.value == Trim(parts[|parts| - 1]))
  {
    var title := PageTitle(doc);
    if title != "" then
      var parts := Split(title, " - ");
      if |parts| > 1 then
        var last := Trim(parts[|parts| - 1]);
        if 1 < |last| < 50 then Some(last) else None
      else None
    else None
  }

  /** `extractSourceName`: in-page source text, else the page title's last segment, else the fallback. */
  function ExtractSourceName(env: Env, e: Elem, fallback: string): (r: string)
    ensures r == fallback || 1 < |r| < 50
    ensures FieldResult(env, e, SourceName).Some? ==> r == FieldResult(env, e, SourceName).value
    ensures FieldResult(env, e, SourceName).None? && TitleSource(env.doc).Some? ==> r == TitleSource(env.doc).value
    ensures FieldResult(env, e, SourceName).None? && TitleSource(env.doc).None? ==> r == fallback
  {
    match FieldResult(env, e, SourceName)
    case Some(t) => t
    case None =>
      match TitleSource(env.doc)
      case Some(t) => t
      case None => fallback
  }

  /** The title segment is what follows the last separator: joining the pieces back gives the title. */
  lemma TitleSourceIsLastSegment(doc: Document)
    requires TitleSource(doc).Some?
    ensures |Split(PageTitle(doc), " - ")| > 1
    ensures Join(Split(PageTitle(doc), " - "), " - ") == PageTitle(doc)
    ensures var parts := Split(PageTitle(doc), " - ");
      TitleSource(doc) == Some(Trim(parts[|parts| - 1]))
  {
    var t := PageTitle(doc);
    var parts := Split(t, " - ");
    assert t != "";
    var last := Trim(parts[|parts| - 1]);
    assert TitleSource(doc) == Some(last);
    assert Join(parts, " - ") == t by { SplitJoin(t, " - "); }
  }

  // ---------------------------------------------------------------------------
  // URLs

  /** `makeAbsoluteUrl` (server): the href resolved against the base; the base itself when the href is empty or does not parse. */
  function MakeAbsoluteUrl(urls: UrlParser, url: string, baseUrl: string): (r: string)
    ensures url == "" || urls.resolve(url, baseUrl).None? ==> r == baseUrl
    ensures url != "" && urls.resolve(url, baseUrl).Some? ==> r == urls.resolve(url, baseUrl).value.href
  {
    if url == "" then baseUrl
    else match urls.resolve(url, baseUrl)
      case Some(u) => u.href
      case None => baseUrl
  }

  /** `extractDomain`: the host name with its first "www." removed, or "Unknown Source". */
  function ExtractDomain(urls: UrlParser, url: string): (r: string)
    ensures urls.parse(url).None? ==> r == "Unknown Source"
    ensures urls.parse(url).Some? ==> r == ReplaceFirst(urls.parse(url).value.hostname, "www.", "")
  {
    match urls.parse(url)
    case None => "Unknown Source"
    case Some(u) => ReplaceFirst(u.hostname, "www.", "")
  }

  /** The link elements `extractUrl` considers, highest priority first: the element itself, its first descendant link, its nearest ancestor link. */
  function LinkCandidates(doc: Document, e: Elem): seq<Elem> {
    (if doc.matches(e, "a[href]") then [e] else [])
    + Take(doc.find(e, "a[href]"), 1)
    + (match doc.closest(e, "a[href]") case Some(a) => [a] case None => [])
  }

  /** `extractUrl`: the highest-priority link candidate's href, resolved; the base URL when there is none. */
  function ExtractUrl(env: Env, e: Elem, baseUrl: string): (r: string)
    ensures var c := LinkCandidates(env.doc, e);
      r == if c == [] then baseUrl else MakeAbsoluteUrl(env.urls, env.doc.attr(c[0], "href"), baseUrl)
  {
    if env.doc.matches(e, "a[href]") then MakeAbsoluteUrl(env.urls, env.doc.attr(e, "href"), baseUrl)
    else
      var links := env.doc.find(e, "a[href]");
      if links != [] then MakeAbsoluteUrl(env.urls, env.doc.attr(links[0], "href"), baseUrl)
      else match env.doc.closest(e, "a[href]")
        case Some(a) => MakeAbsoluteUrl(env.urls, env.doc.attr(a, "href"), baseUrl)
        case None => baseUrl
  }

  /** The image URL an `img` element offers: `src`, then `data-src`, then `data-lazy-src`. */
  function ImageSource(doc: Document, img: Elem): string {
    Or(Or(doc.attr(img, "src"), doc.attr(img, "data-src")), doc.attr(img, "data-lazy-src"))
  }

  /** `extractImage`: only the first descendant image is looked at, and an inline `data:image` source is refused. */
  function ExtractImage(env: Env, e: Elem, baseUrl: string): (r: string)
    ensures env.doc.find(e, "img") == [] ==> r == ""
    ensures r != "" ==> var src := ImageSource(env.doc, env.doc.find(e, "img")[0]);
      src != "" && !Contains(src, "data:image") && r == MakeAbsoluteUrl(env.urls, src, baseUrl)
    ensures env.doc.find(e, "img") != [] ==> var src := ImageSource(env.doc, env.doc.find(e, "img")[0]);
      src != "" && !Contains(src, "data:image") ==> r == MakeAbsoluteUrl(env.urls, src, baseUrl)
  {
    var imgs := env.doc.find(e, "img");
    if imgs == [] then ""
    else
      var src := ImageSource(env.doc, imgs[0]);
      if src != "" && !Contains(src, "data:image") then MakeAbsoluteUrl(env.urls, src, baseUrl) else ""
  }

  /** `extractArticleData`: every field within the bounds its extractor guarantees. */
  function ArticleData(env: Env, e: Elem, baseUrl: string, source: string): (a: Article)
    ensures 10 < |a.headline| < 300
    ensures a.author == "" || (2 < |a.author| < 100 && '-' !in a.author)
    ensures a.publishDate == "" || IsValidDate(env, a.publishDate)
    ensures a.source == source || 1 < |a.source| < 50
    ensures a.summary == "" || 50 < |a.summary| <= 300
    ensures a.image == "" || env.doc.find(e, "img") != []
  {
    Article(
      ExtractHeadline(env, e),
      ExtractAuthor(env, e),
      ExtractDate(env, e),
      ExtractSourceName(env, e, source),
      ExtractUrl(env, e, baseUrl),
      ExtractSummary(env, e),
      ExtractImage(env, e, baseUrl))
  }


  // ---------------------------------------------------------------------------
  // Fallback heading scan

  /** `findNearbyAuthor`: the first author-like element under the heading's parent, a leading "by" removed. */
  function FindNearbyAuthor(env: Env, h: Elem): (r: string)
    ensures var hits := match env.doc.parent(h) case None => [] case Some(p) => env.doc.find(p, ".author, .byline, [class*=\"author\"]");
      (hits == [] ==> r == "")
      && (hits != [] ==> var t := CleanText(env.doc.text(hits[0]));
            r == if StartsWithIgnoringCase(t, "by") then TrimStart(t[2..]) else t)
  {
    match env.doc.parent(h)
    case None => ""
    case Some(p) =>
      var hits := env.doc.find(p, ".author, .byline, [class*=\"author\"]");
      if hits == [] then ""
      else
        var t := CleanText(env.doc.text(hits[0]));
        StripBy(t);
        StripLeading(t, ["by"])
  }

  /** With the single alternative "by", stripping removes it when present, and the whitespace after it. */
  lemma StripBy(t: string)
    ensures StripLeading(t, ["by"]) == if StartsWithIgnoringCase(t, "by") then TrimStart(t[2..]) else t
  {
    assert ["by"][0] == "by" && ["by"][1..] == [];
  }

  /** `findNearbyDate`: the first date-like element under the heading's parent: its `datetime`, else its text. */
  function FindNearbyDate(env: Env, h: Elem): (r: string)
    ensures r != "" ==> env.doc.parent(h).Some? && env.doc.find(env.doc.parent(h).value, "time, .date, [class*=\"date\"]") != []
    ensures r != "" && env.doc.attr(env.doc.find(env.doc.parent(h).value, "time, .date, [class*=\"date\"]")[0], "datetime") != "" ==>
      r == env.doc.attr(env.doc.find(env.doc.parent(h).value, "time, .date, [class*=\"date\"]")[0], "datetime")
  {
    match env.doc.parent(h)
    case None => ""
    case Some(p) =>
      var hits := env.doc.find(p, "time, .date, [class*=\"date\"]");
      if hits == [] then "" else Or(env.doc.attr(hits[0], "datetime"), CleanText(env.doc.text(hits[0])))
  }

  /**
   * `findNearbyLink`: `find(...).first() || closest(...)`. The left operand is
   * a selection and so always truthy: the ancestor link is never consulted.
   */
  function FindNearbyLink(env: Env, h: Elem, baseUrl: string): (r: string)
    ensures var links := env.doc.find(h, "a[href]");
      r == if links == [] then baseUrl else MakeAbsoluteUrl(env.urls, env.doc.attr(links[0], "href"), baseUrl)
  {
    // A Cheerio selection is an object, and every object is truthy, empty
    // selections included: `||` yields `first` and `closest(...)` is never used.
    var link := Take(env.doc.find(h, "a[href]"), 1);
    if link != [] then MakeAbsoluteUrl(env.urls, env.doc.attr(link[0], "href"), baseUrl) else baseUrl
  }

  /** `findNearbySummary`: the next sibling paragraph's text cut to 200, if longer than 50. */
  function FindNearbySummary(env: Env, h: Elem): (r: string)
    ensures r == "" || 50 < |r| <= 200
    ensures r != "" <==> (env.doc.next(h, "p").Some? && |CleanText(env.doc.text(env.doc.next(h, "p").value))| > 50)
    ensures r != "" ==> (var text := CleanText(env.doc.text(env.doc.next(h, "p").value));
      r <= text && |r| == (if |text| < 200 then |text| else 200))
  {
    match env.doc.next(h, "p")
    case None => ""
    case Some(p) =>
      var text := CleanText(env.doc.text(p));
      if |text| > 50 then Prefix(text, 200) else ""
  }

  /** `findNearbyImage`: the first image under the heading's parent, `src` then `data-src`. */
  function FindNearbyImage(env: Env, h: Elem, baseUrl: string): (r: string)
    ensures r != "" ==> env.doc.parent(h).Some? && env.doc.find(env.doc.parent(h).value, "img") != []
    ensures r != "" ==> var img := env.doc.find(env.doc.parent(h).value, "img")[0];
      r == MakeAbsoluteUrl(env.urls, Or(env.doc.attr(img, "src"), env.doc.attr(img, "data-src")), baseUrl)
  {
    match env.doc.parent(h)
    case None => ""
    case Some(p) =>
      var imgs := env.doc.find(p, "img");
      if imgs == [] then ""
      else
        var src := Or(env.doc.attr(imgs[0], "src"), env.doc.attr(imgs[0], "data-src"));
        if src != "" then MakeAbsoluteUrl(env.urls, src, baseUrl) else ""
  }

  /** The article the fallback builds around a heading (its headline is the heading's cleaned text). */
  function HeadingArticle(env: Env, h: Elem, baseUrl: string, source: string): (a: Article)
    ensures a.headline == CleanText(env.doc.text(h)) && a.source == source
    ensures a.summary == "" || 50 < |a.summary| <= 200
    ensures a.image == "" || (env.doc.parent(h).Some? && env.doc.find(env.doc.parent(h).value, "img") != [])
    ensures a.publishDate == "" || (env.doc.parent(h).Some? && env.doc.find(env.doc.parent(h).value, "time, .date, [class*=\"date\"]") != [])
  {
    Article(
      CleanText(env.doc.text(h)),
      FindNearbyAuthor(env, h),
      FindNearbyDate(env, h),
      source,
      FindNearbyLink(env, h, baseUrl),
      FindNearbySummary(env, h),
      FindNearbyImage(env, h, baseUrl))
  }

  /** The fallback's article builder, with the page's base URL and source name fixed. */
  function HeadingBuilder(env: Env, baseUrl: string, source: string): Elem -> Article {
    (h: Elem) => HeadingArticle(env, h, baseUrl, source)
  }


  // ---------------------------------------------------------------------------
  // The pipeline, for any way of building an article from an element
  //
  // The pipeline is stated over the article builders as values, so that its
  // proofs depend only on the headline lengths the builders guarantee.

  /** Every headline in `s` is longer than `minLen`. */
  predicate AllLonger(s: seq<Article>, minLen: nat) {
    forall i :: 0 <= i < |s| ==> |s[i].headline| > minLen
  }

  /** The articles `build` makes from `elems` whose headline is longer than `minLen`, in document order. */
  function Collect(build: Elem -> Article, minLen: nat, elems: seq<Elem>): (r: seq<Article>)
    ensures |r| <= |elems|
    ensures AllLonger(r, minLen)
  {
    if elems == [] then []
    else
      var a := build(elems[|elems| - 1]);
      Collect(build, minLen, elems[..|elems| - 1]) + (if |a.headline| > minLen then [a] else [])
  }

  lemma {:induction false} CollectAppend(build: Elem -> Article, minLen: nat, xs: seq<Elem>, ys: seq<Elem>)
    ensures Collect(build, minLen, xs + ys) == Collect(build, minLen, xs) + Collect(build, minLen, ys)
    decreases |ys|
  {
    if ys == [] {
      assert xs + ys == xs;
    } else {
      var ys' := ys[..|ys| - 1];
      assert (xs + ys)[..|xs + ys| - 1] == xs + ys';
      assert (xs + ys)[|xs + ys| - 1] == ys[|ys| - 1];
      CollectAppend(build, minLen, xs, ys');
    }
  }

  lemma CollectSnoc(build: Elem -> Article, minLen: nat, xs: seq<Elem>, e: Elem)
    ensures Collect(build, minLen, xs + [e])
      == Collect(build, minLen, xs) + (if |build(e).headline| > minLen then [build(e)] else [])
  {
    assert (xs + [e])[..|xs|] == xs;
  }

  /** When every element's headline is long enough, nothing is dropped. */
  lemma {:induction false} CollectAll(build: Elem -> Article, minLen: nat, elems: seq<Elem>)
    requires forall e :: |build(e).headline| > minLen
    ensures |Collect(build, minLen, elems)| == |elems|
    ensures forall i :: 0 <= i < |elems| ==> Collect(build, minLen, elems)[i] == build(elems[i])
  {
    if elems != [] {
      CollectAll(build, minLen, elems[..|elems| - 1]);
    }
  }

  /** The strings of `texts` longer than `minLen`, in order. */
  function LongOnes(texts: seq<string>, minLen: nat): seq<string> {
    if texts == [] then []
    else
      var t := texts[|texts| - 1];
      LongOnes(texts[..|texts| - 1], minLen) + (if |t| > minLen then [t] else [])
  }

  /** The headlines collected are the long headlines of the elements, in document order. */
  lemma {:induction false} CollectHeadlines(build: Elem -> Article, minLen: nat, elems: seq<Elem>, texts: seq<string>)
    requires |texts| == |elems|
    requires forall i :: 0 <= i < |elems| ==> build(elems[i]).headline == texts[i]
    ensures Headlines(Collect(build, minLen, elems)) == LongOnes(texts, minLen)
  {
    if elems != [] {
      var n := |elems| - 1;
      var prefix, shorter := elems[..n], texts[..n];
      forall i | 0 <= i < n ensures build(prefix[i]).headline == shorter[i] {
        assert prefix[i] == elems[i] && shorter[i] == texts[i];
      }
      CollectHeadlines(build, minLen, prefix, shorter);
      var a := Collect(build, minLen, prefix);
      var x := build(elems[n]);
      var tail := if |x.headline| > minLen then [x] else [];
      assert Collect(build, minLen, elems) == a + tail;
      HeadlinesAppend(a, tail);
      assert Headlines(tail) == if |texts[n]| > minLen then [texts[n]] else [];
    }
  }

  /** One tier: the articles of its matches whose headline is longer than 10, at most 20. */
  function TierArticles(doc: Document, build: Elem -> Article, sel: string): (r: seq<Article>)
    ensures |r| <= MaxArticles
    ensures AllLonger(r, 10)
  {
    Take(Collect(build, 10, doc.select(sel)), MaxArticles)
  }

  /** With builders whose headlines always pass, a tier contributes exactly when its selector matches. */
  lemma TierNonEmptyIffMatches(doc: Document, build: Elem -> Article, sel: string)
    requires forall e :: |build(e).headline| > 10
    ensures TierArticles(doc, build, sel) != [] <==> doc.select(sel) != []
  {
    CollectAll(build, 10, doc.select(sel));
  }

  /** The tiers are tried in order; the first that contributes an article is the result, later tiers are not merged. */
  function StructuralPass(doc: Document, build: Elem -> Article, tiers: seq<string>): (r: seq<Article>)
    ensures |r| <= MaxArticles
    ensures AllLonger(r, 10)
  {
    if tiers == [] then []
    else
      var a := TierArticles(doc, build, tiers[0]);
      if a != [] then a else StructuralPass(doc, build, tiers[1..])
  }

  /**
   * Tier selection: the structural pass is empty exactly when no tier yields
   * an article; otherwise it is the articles of the first tier that does.
   */
  lemma {:induction false} TierSelection(doc: Document, build: Elem -> Article, tiers: seq<string>)
    ensures var r := StructuralPass(doc, build, tiers);
      (r == [] <==> forall t :: 0 <= t < |tiers| ==> TierArticles(doc, build, tiers[t]) == [])
      && (r != [] ==> exists t :: (0 <= t < |tiers| && r == TierArticles(doc, build, tiers[t])
            && forall j :: 0 <= j < t ==> TierArticles(doc, build, tiers[j]) == []))
  {
    if tiers != [] && TierArticles(doc, build, tiers[0]) == [] {
      var rest := tiers[1..];
      TierSelection(doc, build, rest);
      assert forall t :: 1 <= t < |tiers| ==> rest[t - 1] == tiers[t];
      var r := StructuralPass(doc, build, rest);
      if r != [] {
        var t :| 0 <= t < |rest| && r == TierArticles(doc, build, rest[t])
          && (forall j :: 0 <= j < t ==> TierArticles(doc, build, rest[j]) == []);
        forall j | 0 <= j < t + 1 ensures TierArticles(doc, build, tiers[j]) == [] {
          if j > 0 { assert tiers[j] == rest[j - 1]; }
        }
        assert r == TierArticles(doc, build, tiers[t + 1]);
      }
    }
  }

  /** One tier's `.each`: builds an article from each match, stopping once 20 have been collected. */
  method ScanTier(doc: Document, build: Elem -> Article, sel: string) returns (articles: seq<Article>)
    ensures articles == TierArticles(doc, build, sel)
  {
    var elems := doc.select(sel);
    articles := [];
    var i := 0;
    while i < |elems|
      invariant 0 <= i <= |elems|
      invariant articles == Collect(build, 10, elems[..i])
      invariant |articles| <= MaxArticles
    {
      if |articles| >= MaxArticles {
        break;
      }
      var article := build(elems[i]);
      CollectSnoc(build, 10, elems[..i], elems[i]);
      assert elems[..i + 1] == elems[..i] + [elems[i]];
      if article.headline != "" && |article.headline| > 10 {
        articles := articles + [article];
      }
      i := i + 1;
    }
    assert elems == elems[..i] + elems[i..];
    CollectAppend(build, 10, elems[..i], elems[i..]);
    if i < |elems| {
      TakeOfPrefixFull(articles, Collect(build, 10, elems[i..]), MaxArticles);
    }
  }

  /** `h1` elements, then `h2`, then `h3`: the order the fallback visits headings in. */
  function HeadingElems(doc: Document, sels: seq<string>): seq<Elem> {
    if sels == [] then [] else HeadingElems(doc, sels[..|sels| - 1]) + doc.select(sels[|sels| - 1])
  }

  /** The heading articles the fallback can produce: one per heading whose headline is longer than 15. */
  function HeadingArticles(doc: Document, build: Elem -> Article): seq<Article> {
    Collect(build, 15, HeadingElems(doc, HeadingSelectors))
  }

  /** The fallback's shared list after the headings `visited`, capped at 20 overall. */
  function HeadingsSoFar(build: Elem -> Article, articles: seq<Article>, visited: seq<Elem>): seq<Article> {
    articles + Take(Collect(build, 15, visited), MaxArticles - |articles|)
  }

  /** Visiting one more heading while the list is below 20 appends its article when its headline is long enough. */
  lemma HeadingStep(build: Elem -> Article, articles: seq<Article>, done: seq<Elem>, elems: seq<Elem>, i: nat)
    requires i < |elems|
    requires |HeadingsSoFar(build, articles, done + elems[..i])| < MaxArticles
    ensures HeadingsSoFar(build, articles, done + elems[..i + 1])
      == HeadingsSoFar(build, articles, done + elems[..i]) + (if |build(elems[i]).headline| > 15 then [build(elems[i])] else [])
  {
    AppendOneMore(done, elems, i);
    CollectSnoc(build, 15, done + elems[..i], elems[i]);
    TakeAppendBelowCap(articles, Collect(build, 15, done + elems[..i]),
      if |build(elems[i]).headline| > 15 then [build(elems[i])] else [], MaxArticles - |articles|);
  }

  /** Once the list holds 20, or every heading has been visited, the remaining headings change nothing. */
  lemma HeadingStop(build: Elem -> Article, articles: seq<Article>, done: seq<Elem>, elems: seq<Elem>, i: nat)
    requires i <= |elems|
    requires i == |elems| || |HeadingsSoFar(build, articles, done + elems[..i])| >= MaxArticles
    ensures HeadingsSoFar(build, articles, done + elems) == HeadingsSoFar(build, articles, done + elems[..i])
  {
    var visited, rest := done + elems[..i], elems[i..];
    assert done + elems == visited + rest by {
      assert elems == elems[..i] + rest;
    }
    CollectAppend(build, 15, visited, rest);
    if i < |elems| {
      TakeAtCap(articles, Collect(build, 15, visited), Collect(build, 15, rest), MaxArticles - |articles|);
    }
  }

  /**
   * One selector's `.each` in `extractFromHeadlines`: each heading whose
   * headline is longer than 15 is appended, until the shared list holds 20.
   * `done` are the headings visited by the earlier selectors.
   */
  method ScanHeadings(build: Elem -> Article, elems: seq<Elem>, articles: seq<Article>, ghost done: seq<Elem>, shared: seq<Article>)
    returns (out: seq<Article>)
    requires shared == HeadingsSoFar(build, articles, done)
    ensures out == HeadingsSoFar(build, articles, done + elems)
  {
    out := shared;
    var i := 0;
    assert done + elems[..0] == done;
    while i < |elems|
      invariant 0 <= i <= |elems|
      invariant out == HeadingsSoFar(build, articles, done + elems[..i])
    {
      if |out| >= MaxArticles {
        break;
      }
      var article := build(elems[i]);
      HeadingStep(build, articles, done, elems, i);
      if |article.headline| > 15 {
        out := out + [article];
      }
      i := i + 1;
    }
    HeadingStop(build, articles, done, elems, i);
  }

  /** `extractFromHeadlines`: the `h1`, `h2` and `h3` passes in turn, all appending to `articles`. */
  method ExtractFromHeadlines(doc: Document, build: Elem -> Article, articles: seq<Article>) returns (out: seq<Article>)
    ensures out == articles + Take(HeadingArticles(doc, build), MaxArticles - |articles|)
  {
    out := articles;
    for k := 0 to |HeadingSelectors|
      invariant out == HeadingsSoFar(build, articles, HeadingElems(doc, HeadingSelectors[..k]))
    {
      out := ScanHeadings(build, doc.select(HeadingSelectors[k]), articles, HeadingElems(doc, HeadingSelectors[..k]), out);
      assert HeadingSelectors[..k + 1][..k] == HeadingSelectors[..k];
    }
    assert HeadingSelectors[..|HeadingSelectors|] == HeadingSelectors;
  }

  /** Two articles are duplicates when their lower-cased headlines are equal. */
  function HeadlineKey(a: Article): string {
    ToLower(a.headline)
  }

  /** `removeDuplicates`: keeps the first article of each lower-cased headline, in order. */
  method RemoveDuplicates(articles: seq<Article>) returns (kept: seq<Article>)
    ensures kept == Dedup(articles, HeadlineKey)
  {
    var seen: set<string> := {};
    kept := [];
    for i := 0 to |articles|
      invariant kept == Dedup(articles[..i], HeadlineKey)
      invariant seen == KeySet(kept, HeadlineKey)
    {
      assert articles[..i + 1][..i] == articles[..i];
      var key := HeadlineKey(articles[i]);
      if key !in seen {
        seen := seen + {key};
        assert (kept + [articles[i]])[..|kept|] == kept;
        kept := kept + [articles[i]];
      }
    }
    assert articles[..|articles|] == articles;
  }

  /** The structural pass over the configured tiers, or the heading fallback when it found nothing. */
  function Candidates(doc: Document, build: Elem -> Article, buildFromHeading: Elem -> Article): (c: seq<Article>)
    ensures |c| <= MaxArticles
    ensures AllLonger(c, 10)
  {
    var structural := StructuralPass(doc, build, ArticleSelectors);
    if structural == [] then
      var headings := HeadingArticles(doc, buildFromHeading);
      assert forall i :: 0 <= i < |Take(headings, MaxArticles)| ==> Take(headings, MaxArticles)[i] == headings[i];
      Take(headings, MaxArticles)
    else structural
  }

  /**
   * What the pipeline returns: the candidates, de-duplicated, at most 20.
   * The articles keep their candidate order and no two have headlines equal
   * ignoring case.
   */
  function Pipeline(doc: Document, build: Elem -> Article, buildFromHeading: Elem -> Article): (r: seq<Article>)
    ensures |r| <= MaxArticles
    ensures forall a :: a in r ==> |a.headline| > 10
    ensures DistinctKeys(r, HeadlineKey)
    ensures IsSubseq(r, Candidates(doc, build, buildFromHeading))
  {
    var c := Candidates(doc, build, buildFromHeading);
    var d := Dedup(c, HeadlineKey);
    DedupSubseq(c, HeadlineKey);
    DedupDistinct(c, HeadlineKey);
    TakeIsSubseq(d, MaxArticles);
    SubseqTrans(Take(d, MaxArticles), d, c);
    SubseqMembers(Take(d, MaxArticles), c);
    assert forall a :: a in c ==> |a.headline| > 10;
    assert forall i :: 0 <= i < |Take(d, MaxArticles)| ==> Take(d, MaxArticles)[i] == d[i];
    Take(d, MaxArticles)
  }

  /** The body of `extractArticles`, once the article builders are fixed. */
  method RunPipeline(doc: Document, build: Elem -> Article, buildFromHeading: Elem -> Article) returns (result: seq<Article>)
    ensures result == Pipeline(doc, build, buildFromHeading)
  {
    var articles: seq<Article> := [];
    var t := 0;
    while t < |ArticleSelectors|
      invariant 0 <= t <= |ArticleSelectors|
      invariant articles == []
      invariant StructuralPass(doc, build, ArticleSelectors) == StructuralPass(doc, build, ArticleSelectors[t..])
    {
      var found := ScanTier(doc, build, ArticleSelectors[t]);
      assert ArticleSelectors[t..][0] == ArticleSelectors[t];
      assert ArticleSelectors[t..][1..] == ArticleSelectors[t + 1..];
      if |found| > 0 {
        articles := found;
        break;
      }
      t := t + 1;
    }
    if t == |ArticleSelectors| {
      assert ArticleSelectors[t..] == [];
    }
    assert articles == StructuralPass(doc, build, ArticleSelectors);
    if |articles| == 0 {
      articles := ExtractFromHeadlines(doc, buildFromHeading, articles);
      assert [] + Take(HeadingArticles(doc, buildFromHeading), MaxArticles) == Take(HeadingArticles(doc, buildFromHeading), MaxArticles);
    }
    assert articles == Candidates(doc, build, buildFromHeading);
    var unique := RemoveDuplicates(articles);
    result := Take(unique, MaxArticles);
  }

  lemma {:induction false} SubseqRefl<T>(s: seq<T>)
    ensures IsSubseq(s, s)
  {
    if s != [] {
      SubseqRefl(s[..|s| - 1]);
    }
  }

  lemma {:induction false} TakeIsSubseq<T>(s: seq<T>, n: int)
    ensures IsSubseq(Take(s, n), s)
    decreases |s|
  {
    if Take(s, n) == s {
      SubseqRefl(s);
    } else {
      var p := s[..|s| - 1];
      TakeIsSubseq(p, n);
      assert Take(s, n) == Take(p, n);
      SubseqAppend(Take(p, n), p, s[|s| - 1], false);
      assert p + [s[|s| - 1]] == s;
    }
  }

  lemma {:induction false} SubseqTrans<T>(a: seq<T>, b: seq<T>, c: seq<T>)
    requires IsSubseq(a, b) && IsSubseq(b, c)
    ensures IsSubseq(a, c)
    decreases |c|
  {
    if a != [] {
      SubseqMembers(b, c);
      SubseqMembers(a, b);
      var c' := c[..|c| - 1];
      if b[|b| - 1] == c[|c| - 1] && IsSubseq(b[..|b| - 1], c') {
        var b' := b[..|b| - 1];
        if a[|a| - 1] == b[|b| - 1] && IsSubseq(a[..|a| - 1], b') {
          SubseqTrans(a[..|a| - 1], b', c');
        } else {
          SubseqTrans(a, b', c');
        }
      } else {
        SubseqTrans(a, b, c');
      }
    }
  }

  /**
   * What the pipeline guarantees: at most 20 articles, every headline longer
   * than 10 characters, no two headlines equal ignoring case, in candidate
   * order, each one the first candidate with its headline.
   */
  lemma PipelineProperties(doc: Document, build: Elem -> Article, buildFromHeading: Elem -> Article)
    ensures var r := Pipeline(doc, build, buildFromHeading);
      var c := Candidates(doc, build, buildFromHeading);
      |r| <= MaxArticles
      && (forall a :: a in r ==> |a.headline| > 10)
      && DistinctKeys(r, HeadlineKey)
      && IsSubseq(r, c)
      && forall i :: 0 <= i < |r| ==> (HeadlineKey(r[i]) in KeySet(c, HeadlineKey)
           && r[i] == FirstWithKey(c, HeadlineKey, HeadlineKey(r[i])))
  {
    var c := Candidates(doc, build, buildFromHeading);
    var d := Dedup(c, HeadlineKey);
    var r := Pipeline(doc, build, buildFromHeading);
    DedupKeepsFirst(c, HeadlineKey);
    assert forall i :: 0 <= i < |r| ==> r[i] == d[i];
  }

  /**
   * With builders whose headlines always pass, the fallback runs exactly when
   * no container selector matches an element; when one does, the candidates
   * are the articles of the first that matches.
   */
  lemma FallbackOnlyWithoutContainers(doc: Document, build: Elem -> Article, buildFromHeading: Elem -> Article)
    requires forall e :: |build(e).headline| > 10
    ensures (forall t :: 0 <= t < |ArticleSelectors| ==> doc.select(ArticleSelectors[t]) == []) ==>
      Candidates(doc, build, buildFromHeading) == Take(HeadingArticles(doc, buildFromHeading), MaxArticles)
    ensures forall t :: (0 <= t < |ArticleSelectors| && doc.select(ArticleSelectors[t]) != []
                          && forall j :: 0 <= j < t ==> doc.select(ArticleSelectors[j]) == []) ==>
      Candidates(doc, build, buildFromHeading) == TierArticles(doc, build, ArticleSelectors[t])
  {
    forall t | 0 <= t < |ArticleSelectors| {
      TierNonEmptyIffMatches(doc, build, ArticleSelectors[t]);
    }
    TierSelection(doc, build, ArticleSelectors);
  }

  // ---------------------------------------------------------------------------
  // `extractArticles` itself

  /** `extractArticleData` with the page's base URL and source name fixed. */
  function ArticleBuilder(env: Env, baseUrl: string, source: string): Elem -> Article {
    (e: Elem) => ArticleData(env, e, baseUrl, source)
  }

  /** Every article `extractArticleData` builds passes the caller's `headline.length > 10` test. */
  lemma ArticleHeadlinesPass(env: Env, baseUrl: string, source: string)
    ensures forall e :: |ArticleBuilder(env, baseUrl, source)(e).headline| > 10
  {
    forall e: Elem ensures |ArticleBuilder(env, baseUrl, source)(e).headline| > 10 {
      assert ArticleBuilder(env, baseUrl, source)(e).headline == ExtractHeadline(env, e);
    }
  }

  /** What `extractArticles` returns for a page and its URL: at most 20 articles, headlines longer than 10 and distinct ignoring case. */
  function Extracted(env: Env, baseUrl: string): (r: seq<Article>)
    ensures |r| <= MaxArticles
    ensures forall a :: a in r ==> |a.headline| > 10
    ensures DistinctKeys(r, HeadlineKey)
  {
    var source := ExtractDomain(env.urls, baseUrl);
    Pipeline(env.doc, ArticleBuilder(env, baseUrl, source), HeadingBuilder(env, baseUrl, source))
  }

  /** `extractArticles`. */
  method ExtractArticles(env: Env, baseUrl: string) returns (result: seq<Article>)
    ensures result == Extracted(env, baseUrl)
  {
    var source := ExtractDomain(env.urls, baseUrl);
    result := RunPipeline(env.doc, ArticleBuilder(env, baseUrl, source), HeadingBuilder(env, baseUrl, source));
  }

  /** On a real page the fallback runs exactly when no container selector matches. */
  lemma ExtractFallbackOnlyWithoutContainers(env: Env, baseUrl: string)
    ensures var source := ExtractDomain(env.urls, baseUrl);
      var c := Candidates(env.doc, ArticleBuilder(env, baseUrl, source), HeadingBuilder(env, baseUrl, source));
      (forall t :: 0 <= t < |ArticleSelectors| ==> env.doc.select(ArticleSelectors[t]) == []) <==>
        c == Take(HeadingArticles(env.doc, HeadingBuilder(env, baseUrl, source)), MaxArticles)
          && StructuralPass(env.doc, ArticleBuilder(env, baseUrl, source), ArticleSelectors) == []
  {
    var source := ExtractDomain(env.urls, baseUrl);
    var build := ArticleBuilder(env, baseUrl, source);
    ArticleHeadlinesPass(env, baseUrl, source);
    FallbackOnlyWithoutContainers(env.doc, build, HeadingBuilder(env, baseUrl, source));
    forall t | 0 <= t < |ArticleSelectors| {
      TierNonEmptyIffMatches(env.doc, build, ArticleSelectors[t]);
    }
    TierSelection(env.doc, build, ArticleSelectors);
  }

  /** The fallback's headlines are exactly the headings' cleaned texts longer than 15 characters, in document order. */
  lemma FallbackHeadlines(env: Env, baseUrl: string, source: string)
    ensures var elems := HeadingElems(env.doc, HeadingSelectors);
      Headlines(HeadingArticles(env.doc, HeadingBuilder(env, baseUrl, source)))
        == LongOnes(seq(|elems|, i requires 0 <= i < |elems| => CleanText(env.doc.text(elems[i]))), 15)
  {
    var elems := HeadingElems(env.doc, HeadingSelectors);
    var texts := seq(|elems|, i requires 0 <= i < |elems| => CleanText(env.doc.text(elems[i])));
    CollectHeadlines(HeadingBuilder(env, baseUrl, source), 15, elems, texts);
  }
}
