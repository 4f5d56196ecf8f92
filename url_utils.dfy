/**
 * The client's URL helpers: the scheme default added to what the user
 * typed, the domain-name shape test, and the thin wrappers around the URL
 * parser (a parameter) with their fallbacks.
 */
module UrlUtils {
  import opened Wrappers
  import opened Text
  import opened Platform

  /** `validateUrl(url)`: whether `new URL(url)` succeeds. */
  function ValidateUrl(urls: UrlParser, url: string): (r: bool)
    ensures r <==> urls.parse(url).Some?
  {
    urls.parse(url).Some?
  }

  // ---------------------------------------------------------------------------
  // normalizeUrl
  // ---------------------------------------------------------------------------

  predicate HasScheme(url: string) {
    StartsWith(url, "http://") || StartsWith(url, "https://")
  }

  /** `normalizeUrl(url)`: "https://" in front of anything that does not start with "http://" or "https://". */
  function NormalizeUrl(url: string): (r: string)
    ensures r == url <==> HasScheme(url)
    ensures r != url ==> r == "https://" + url
    ensures HasScheme(r)
  {
    if !StartsWith(url, "http://") && !StartsWith(url, "https://") then
      assert ("https://" + url)[..8] == "https://";
      "https://" + url
    else url
  }

  /** Normalising twice is normalising once. */
  lemma NormalizeUrlIdempotent(url: string)
    ensures NormalizeUrl(NormalizeUrl(url)) == NormalizeUrl(url)
  {
  }

  // ---------------------------------------------------------------------------
  // makeAbsoluteUrl and extractDomain
  // ---------------------------------------------------------------------------

  /** `makeAbsoluteUrl(relativeUrl, baseUrl)`: the resolved URL, or the relative input itself when resolution fails. */
  function MakeAbsoluteUrl(urls: UrlParser, relativeUrl: string, baseUrl: string): (r: string)
    ensures urls.resolve(relativeUrl, baseUrl).None? ==> r == relativeUrl
    ensures urls.resolve(relativeUrl, baseUrl).Some? ==> r == urls.resolve(relativeUrl, baseUrl).value.href
  {
    match urls.resolve(relativeUrl, baseUrl)
    case Some(u) => u.href
    case None => relativeUrl
  }

  /** `extractDomain(url)` (client): the host name less its first "www.", or "Unknown Source". */
  function ExtractDomain(urls: UrlParser, url: string): (r: string)
    ensures urls.parse(url).None? ==> r == "Unknown Source"
    ensures urls.parse(url).Some? && !Contains(urls.parse(url).value.hostname, "www.") ==> r == urls.parse(url).value.hostname
    ensures urls.parse(url).Some? && Contains(urls.parse(url).value.hostname, "www.") ==> |r| == |urls.parse(url).value.hostname| - 4
    ensures urls.parse(url).Some? ==>
              var h := urls.parse(url).value.hostname;
              forall i :: MatchesAt(h, "www.", i) && (forall j :: 0 <= j < i ==> !MatchesAt(h, "www.", j)) ==>
                i + 4 <= |h| && r == h[..i] + h[i + 4..]
  {
    match urls.parse(url)
    case None => "Unknown Source"
    case Some(u) => ReplaceFirst(u.hostname, "www.", "")
  }

  // ---------------------------------------------------------------------------
  // isValidDomain
  // ---------------------------------------------------------------------------

  /** `[a-zA-Z0-9-]`. */
  predicate IsLabelChar(c: char) { IsAlphanumeric(c) || c == '-' }

  /** `[a-zA-Z0-9][a-zA-Z0-9-]{1,61}[a-zA-Z0-9]`: 3 to 63 characters, no hyphen at either end. */
  predicate IsLabel(l: string) {
    3 <= |l| <= 63 && IsAlphanumeric(l[0]) && IsAlphanumeric(l[|l| - 1])
    && forall i :: 0 <= i < |l| ==> IsLabelChar(l[i])
  }

  /** `[a-zA-Z]{2,}`. */
  predicate IsTld(t: string) {
    |t| >= 2 && forall i :: 0 <= i < |t| ==> IsAsciiLetter(t[i])
  }

  /** The whole of `d` is a label, a dot at position `k`, and a top-level domain. */
  predicate LabelDotTldAt(d: string, k: int) {
    0 <= k < |d| && d[k] == '.' && IsLabel(d[..k]) && IsTld(d[k + 1..])
  }

  /** What the anchored regular expression accepts: some split of `d` into label, dot, top-level domain. */
  ghost predicate DomainShape(d: string) {
    exists k :: LabelDotTldAt(d, k)
  }

  /** The position of the first dot in `d`. */
  function FirstDot(d: string): (r: Option<nat>)
    ensures r.Some? ==> r.value < |d| && d[r.value] == '.' && forall j :: 0 <= j < r.value ==> d[j] != '.'
    ensures r.None? ==> forall j :: 0 <= j < |d| ==> d[j] != '.'
  {
    if d == [] then None
    else if d[0] == '.' then Some(0)
    else
      match FirstDot(d[1..])
      case None => None
      case Some(k) => Some(k + 1)
  }

  lemma {:induction false} FirstDotIs(d: string, k: nat)
    requires k < |d| && d[k] == '.' && forall j :: 0 <= j < k ==> d[j] != '.'
    ensures FirstDot(d) == Some(k)
  {
    if k > 0 {
      var t := d[1..];
      forall j | 0 <= j < k - 1 ensures t[j] != '.' { assert t[j] == d[j + 1]; }
      FirstDotIs(t, k - 1);
    }
  }

  /**
   * `isValidDomain(domain)`: the regular expression has one dot and neither
   * side may hold another, so the name is split at its first dot and both
   * sides are checked.
   */
  function IsValidDomain(d: string): (r: bool)
    ensures r ==> DomainShape(d)
    ensures r ==> |d| >= 6 && IsAlphanumeric(d[0]) && IsAsciiLetter(d[|d| - 1])
  {
    match FirstDot(d)
    case None => false
    case Some(k) => LabelDotTldAt(d, k)
  }

  /** The test accepts exactly the strings of the regular expression's shape. */
  lemma IsValidDomainIsShape(d: string)
    ensures IsValidDomain(d) <==> DomainShape(d)
  {
    if DomainShape(d) {
      var k :| LabelDotTldAt(d, k);
      var name := d[..k];
      forall j | 0 <= j < k ensures d[j] != '.' {
        assert d[j] == name[j] && IsLabelChar(name[j]);
      }
      FirstDotIs(d, k);
    }
  }

  /** Neither a label nor a top-level domain holds a dot: an accepted name has exactly one. */
  lemma AcceptedHasOneDot(d: string)
    requires IsValidDomain(d)
    ensures forall i :: 0 <= i < |d| && d[i] == '.' ==> i == FirstDot(d).value
  {
    var k := FirstDot(d).value;
    var tld := d[k + 1..];
    forall i | k < i < |d| ensures d[i] != '.' {
      assert d[i] == tld[i - k - 1] && IsAsciiLetter(tld[i - k - 1]);
    }
  }

  /** So a name with two dots, such as "www.example.com", is rejected. */
  lemma TwoDotsRejected(d: string, i: int, j: int)
    requires 0 <= i < j < |d| && d[i] == '.' && d[j] == '.'
    ensures !IsValidDomain(d)
  {
    if IsValidDomain(d) {
      AcceptedHasOneDot(d);
    }
  }
}
