# News scraper: a Dafny model

A model of the news scraper's logic. The model covers four parts:

- **The server's article-extraction engine** (`CheerioHelper`). It tries container selectors tier by tier, then falls back to scanning `h1`/`h2`/`h3` headings. It also models the per-field selector cascades and the case-insensitive removal of duplicates. The result is capped at 20 articles.
- **The robots.txt gate** (`Robots`). It keeps a one-hour cache of parsed rulesets and answers "allowed" on any failure.
- **The two HTTP handlers** (`ScraperRoute`). `POST /scrape` validates, enhances and summarises articles and classifies errors. `GET /robots-check` reports on a site's robots.txt.
- **The client's pure helpers:**
  - the keyword filter and the sorts of the `useNewsScraper` hook (`NewsHook`);
  - the text helpers (`TextUtils`), the date helpers (`DateUtils`) and the URL helpers (`UrlUtils`).

The parsed HTML page, the URL parser, the date parser, the robots.txt rule semantics, the network, the clock, `Intl` formatting and `localeCompare` are parameters of the model. Each one is a function-typed value in module `Platform` or in the module that uses it. The model decides what the code does with their answers: which selector wins, what gets cached, which status is returned and which label is shown.

`Text` and `Seqs` hold the string and sequence vocabulary the modules share:

- JavaScript's `\s` class and `trim`, plus the `/\s+/g` collapse;
- `split`/`join`, `indexOf`, and `replace` of the first occurrence;
- filtering, `slice(0, n)`, and de-duplication keeping the first of each key.

Some behaviour of the code as written, which the model keeps rather than corrects:

- The headline placeholder "No headline found" has 17 characters. It therefore passes the `length > 10` test (`server/utils/cheerioHelper.js:28`), so it is not dropped. `CheerioHelper.ArticleHeadlinesPass` proves that every built article passes this test.
- `averageCompleteness` over no articles is `0 / 0` in the code, which JSON renders as `null`, not 0. The model has `None` there.
- In `tryCustomParse`, the day-first branch is unreachable, because the second test is an array literal and is always truthy. Every slash or dash date is therefore read month first. `DateUtils.DayFirstNeverChosen` and `DateUtils.LabelTestMakesNoDifference` state this.
- A stale robots.txt entry whose re-fetch fails or is empty is kept, not replaced or removed (`server/utils/robotsChecker.js:26-28`). `Robots.FailuresAllowAndKeepCache` states this.

## Model

| member | source | states |
|---|---|---|
| Text.CleanText | server/utils/cheerioHelper.js:302-304 | the cleaned text has no leading or trailing whitespace and no whitespace character other than single spaces between non-spaces; TextUtils.CleanTextIsJoinedWords states which words it keeps |
| Text.CleanTextIdempotent | server/utils/cheerioHelper.js:302-304 | cleaning already cleaned text changes nothing |
| Text.RunsReplacedBySingleSpaces | server/utils/cheerioHelper.js:303 | after the `/\s+/g` replacement no two whitespace characters are adjacent and every remaining one is a plain space |
| Text.SplitJoin | server/utils/cheerioHelper.js:369 | splitting on a separator and joining with it gives back the original string |
| Text.Split | server/utils/cheerioHelper.js:369 | `split(sep)` gives at least one part, more than one exactly when the separator occurs, and no part contains the separator |
| Text.ReplaceFirst | server/utils/cheerioHelper.js:318 | `replace("www.", "")` leaves a string without the pattern unchanged; otherwise, at the first position where the pattern occurs, the pattern is cut out and the replacement put in its place |
| Text.Trim | client/src/utils/textUtils.js:3 | `trim()` removes whitespace at both ends only: the result is a slice of the input whose ends are not whitespace, and every character before and after the slice is whitespace |
| Seqs.Filter | server/routes/scraper.js:56-60 | `filter` keeps an order-preserving subsequence whose every element passes the predicate |
| Seqs.FilterKeepsAll | server/routes/scraper.js:56-60 | every element that passes the predicate is kept |
| Seqs.FilterCount | server/routes/scraper.js:56-60 | `filter` keeps every copy of an element that passes and no copy of one that fails |
| Seqs.FilterIdempotent | client/src/hooks/useNewsScraper.js:41-60 | filtering twice by the same predicate is filtering once |
| Seqs.DedupDistinct | server/utils/cheerioHelper.js:329-339 | no two kept elements share a key |
| Seqs.DedupKeySet | server/utils/cheerioHelper.js:329-339 | every key of the input is still represented after de-duplication |
| Seqs.DedupKeepsFirst | server/utils/cheerioHelper.js:329-339 | each kept element is the first input element with its key |
| Seqs.DedupSubseq | server/utils/cheerioHelper.js:331 | de-duplication keeps an order-preserving subsequence |
| Seqs.DedupOfDistinct | server/utils/cheerioHelper.js:329-339 | a list without duplicate keys comes back unchanged |
| Seqs.DedupIdempotent | server/utils/cheerioHelper.js:329-339 | removing duplicates twice is removing them once |
| Seqs.DedupFirstOccurrenceOrder | client/src/utils/textUtils.js:20 | kept keys appear in the order of their first occurrence in the input, as a `Set` iterates them |
| Seqs.TakeShort | server/utils/cheerioHelper.js:42 | `slice(0, n)` of a list no longer than `n` is the list itself |
| CheerioHelper.StripLeading | server/utils/cheerioHelper.js:121 | with no alternative matching at the start (ignoring case), the text is unchanged; otherwise the first matching alternative is removed, with the whitespace after it; the result is always a suffix of the text |
| CheerioHelper.AuthorColonStripped | server/utils/cheerioHelper.js:121 | a byline starting with "author:" (any case) loses the colon too, with the whitespace after it, because "author:" is tried before "author" |
| CheerioHelper.CutAtDash | server/utils/cheerioHelper.js:122 | cutting at a dash leaves a prefix of the text |
| CheerioHelper.CutAtDashLeftmost | server/utils/cheerioHelper.js:122 | the cut is made at the leftmost place where whitespace, a hyphen and the rest of the line begin, and nowhere earlier |
| CheerioHelper.CutAtDashRemovesHyphens | server/utils/cheerioHelper.js:122 | on single-line text the result contains no hyphen at all |
| CheerioHelper.AuthorText | server/utils/cheerioHelper.js:118-122 | a cleaned author text with its prefix stripped and its dash tail cut never contains a hyphen |
| CheerioHelper.DateValue | server/utils/cheerioHelper.js:156-172 | the first usable value in priority order: `datetime`, then `data-date` or else `data-time`, then the cleaned text; a value is usable when non-empty and accepted by the date parser; absent exactly when none is usable |
| CheerioHelper.Probe | server/utils/cheerioHelper.js:79-88 | no match gives nothing; otherwise the first match's field value is returned exactly when it passes the field's test: headline 11..299 characters; author 3..99 with no hyphen; a usable date; summary longer than 50, cut to 300; source 2..49 |
| CheerioHelper.Cascade | server/utils/cheerioHelper.js:115-128 | the result is absent exactly when no selector yields a value; otherwise it is the value of the first selector that does, and all earlier selectors yield nothing |
| CheerioHelper.ExtractHeadline | server/utils/cheerioHelper.js:59-92 | always 11..299 characters; the first valid selector text, else the element text cut to 150 when it is longer than 10, else the 17-character placeholder |
| CheerioHelper.ExtractAuthor | server/utils/cheerioHelper.js:94-131 | "" exactly when no selector yields a valid author; otherwise the value of the first selector that does, 3..99 characters without a hyphen |
| CheerioHelper.ExtractDate | server/utils/cheerioHelper.js:133-177 | "" exactly when no selector yields a date; otherwise the value of the first selector that does, which the date parser accepts |
| CheerioHelper.ExtractSummary | server/utils/cheerioHelper.js:200-222 | "" exactly when no selector yields a long-enough text; otherwise the value of the first selector that does, 51..300 characters |
| CheerioHelper.TitleSource | server/utils/cheerioHelper.js:366-376 | a title-derived source exists exactly when the title is non-empty, splits on " - " into two or more parts, and its trimmed last part has 2..49 characters; it is then that trimmed last part |
| CheerioHelper.TitleSourceIsLastSegment | server/utils/cheerioHelper.js:369-371 | the title-derived source is the trimmed last " - " segment of the page title |
| CheerioHelper.ExtractSourceName | server/utils/cheerioHelper.js:341-379 | priority order: an in-article source text, then the title segment, then the fallback; anything but the fallback has 2..49 characters |
| CheerioHelper.MakeAbsoluteUrl | server/utils/cheerioHelper.js:306-314 | an empty or unresolvable URL gives the base URL; otherwise the URL resolved against the base |
| CheerioHelper.ExtractDomain | server/utils/cheerioHelper.js:316-322 | an unparsable URL gives "Unknown Source"; otherwise the host name with its first "www." removed |
| CheerioHelper.ExtractUrl | server/utils/cheerioHelper.js:179-198 | the element itself if it is a link, else its first descendant link, else its closest ancestor link, resolved; the base URL when there is none |
| CheerioHelper.ExtractImage | server/utils/cheerioHelper.js:224-234 | only the first descendant image is consulted: when its `src`, `data-src` or `data-lazy-src` is non-empty and not `data:image`, the result is that source resolved against the base; otherwise "" |
| CheerioHelper.ArticleData | server/utils/cheerioHelper.js:45-57 | the article built from an element has a headline of 11..299 characters, an author that is "" or 3..99 characters without a hyphen, a date that is "" or parseable, the given source or a 2..49-character one, a summary that is "" or 51..300 characters, and an image only when the element contains one |
| CheerioHelper.HeadingArticle | server/utils/cheerioHelper.js:247-255 | the fallback's article has the heading's cleaned text as headline and the page's source; its summary is "" or 51..200 characters; its date and image come only from elements under the heading's parent |
| CheerioHelper.FindNearbyAuthor | server/utils/cheerioHelper.js:263-266 | the first author-like element under the heading's parent, cleaned, with a leading case-insensitive "by" and the following spaces removed; "" when there is none |
| CheerioHelper.StripBy | server/utils/cheerioHelper.js:265 | with the single alternative "by", stripping removes it when present, together with the whitespace that follows |
| CheerioHelper.FindNearbyDate | server/utils/cheerioHelper.js:268-274 | a nearby date comes only from a date-like element under the parent, and its `datetime` attribute wins when set |
| CheerioHelper.FindNearbyLink | server/utils/cheerioHelper.js:276-282 | only the first descendant link counts, because an empty selection is truthy and the ancestor link is never consulted; the base URL when there is none |
| CheerioHelper.FindNearbySummary | server/utils/cheerioHelper.js:284-291 | non-empty exactly when the next sibling paragraph's text is longer than 50; then its first 200 characters |
| CheerioHelper.FindNearbyImage | server/utils/cheerioHelper.js:293-300 | an image comes only from the first image under the parent, from `src` or else `data-src`, resolved |
| CheerioHelper.Collect | server/utils/cheerioHelper.js:28-30 | the kept articles all pass the headline-length test and are no more numerous than the elements |
| CheerioHelper.CollectAppend | server/utils/cheerioHelper.js:24-31 | collecting over two runs of elements is collecting over each in turn |
| CheerioHelper.CollectAll | server/utils/cheerioHelper.js:28 | when every built headline passes, every element gives its article, in order |
| CheerioHelper.CollectHeadlines | server/utils/cheerioHelper.js:244-246 | the collected headlines are exactly the element texts longer than the bound, in order |
| CheerioHelper.TierArticles | server/utils/cheerioHelper.js:24-31 | one tier yields at most 20 articles, each with a headline longer than 10 |
| CheerioHelper.TierNonEmptyIffMatches | server/utils/cheerioHelper.js:24-33 | when every headline passes, a tier yields articles exactly when its selector matches an element |
| CheerioHelper.StructuralPass | server/utils/cheerioHelper.js:23-34 | the structural pass yields at most 20 articles, each with a headline longer than 10 |
| CheerioHelper.TierSelection | server/utils/cheerioHelper.js:23-34 | the pass is empty exactly when every tier is empty; otherwise it is the articles of the first non-empty tier |
| CheerioHelper.ScanTier | server/utils/cheerioHelper.js:24-31 | the `.each` loop with its early stop at 20 computes exactly that tier's articles |
| CheerioHelper.HeadingStep | server/utils/cheerioHelper.js:240-258 | below the cap, visiting one more heading appends its article exactly when its headline is longer than 15 |
| CheerioHelper.HeadingStop | server/utils/cheerioHelper.js:241 | once the shared list holds 20, the remaining headings change nothing |
| CheerioHelper.ScanHeadings | server/utils/cheerioHelper.js:240-259 | one heading selector's loop extends the shared list as the capped collection of all headings visited so far |
| CheerioHelper.ExtractFromHeadlines | server/utils/cheerioHelper.js:236-261 | the `h1`, `h2` and `h3` passes append to the list the qualifying heading articles, in document order per selector, up to 20 in all |
| CheerioHelper.RemoveDuplicates | server/utils/cheerioHelper.js:329-339 | the seen-set loop keeps exactly the first article of each lower-cased headline, in order |
| CheerioHelper.Candidates | server/utils/cheerioHelper.js:23-39 | the candidate list, from the first contributing tier or else the heading fallback, has at most 20 articles, each with a headline longer than 10 |
| CheerioHelper.Pipeline | server/utils/cheerioHelper.js:41-42 | the returned list has at most 20 articles, headlines longer than 10, no two headlines equal ignoring case, and keeps candidate order |
| CheerioHelper.RunPipeline | server/utils/cheerioHelper.js:5-42 | the tier loop, the fallback when it found nothing, the de-duplication and the cap compute exactly the specified pipeline |
| CheerioHelper.SubseqTrans | server/utils/cheerioHelper.js:42 | a subsequence of a subsequence is a subsequence: de-duplication then slicing keeps candidate order |
| CheerioHelper.TakeIsSubseq | server/utils/cheerioHelper.js:42 | `slice(0, n)` keeps an order-preserving subsequence |
| CheerioHelper.PipelineProperties | server/utils/cheerioHelper.js:4-43 | at most 20 articles; every headline is longer than 10; no two headlines are equal ignoring case; candidate order is kept; each article is the first candidate with its headline |
| CheerioHelper.FallbackOnlyWithoutContainers | server/utils/cheerioHelper.js:23-39 | the heading fallback supplies the candidates exactly when no container selector matches; otherwise the first matching tier does |
| CheerioHelper.ArticleHeadlinesPass | server/utils/cheerioHelper.js:28 | every article built by `extractArticleData` passes the `length > 10` test, the placeholder included |
| CheerioHelper.ExtractArticles | server/utils/cheerioHelper.js:4-43 | `extractArticles` with the page's own builders and the domain of the base URL as source |
| CheerioHelper.Extracted | server/utils/cheerioHelper.js:4-43 | the extracted list has at most 20 articles, with headlines longer than 10 and pairwise distinct ignoring case |
| CheerioHelper.ExtractFallbackOnlyWithoutContainers | server/utils/cheerioHelper.js:33-39 | on a real page the fallback runs if and only if no container selector matches any element |
| CheerioHelper.FallbackHeadlines | server/utils/cheerioHelper.js:236-261 | the fallback's headlines are exactly the headings' cleaned texts longer than 15 characters, in document order |
| Robots.GetRobotsContent | server/utils/robotsChecker.js:45-61 | a body is returned as is, a 404 gives null, and every other failure is rethrown |
| Robots.Check | server/utils/robotsChecker.js:10-43 | an unparsable URL answers "allowed" with no fetch and no cache change; otherwise the robots.txt URL is fetched, once, exactly when its entry is missing or stale, the cache changes at most by storing the freshly parsed ruleset under that URL, and "disallowed" only comes from a cached ruleset |
| Robots.CacheHitAnswersWithoutFetch | server/utils/robotsChecker.js:16-21 | a fresh entry answers from its cached ruleset, with no fetch and no cache change |
| Robots.MissFetchesOnce | server/utils/robotsChecker.js:16-24 | the robots.txt URL is fetched exactly once when the entry is missing or stale, and never otherwise |
| Robots.FailuresAllowAndKeepCache | server/utils/robotsChecker.js:26-28 | an unparsable URL, a 404, an empty body or a fetch error all answer "allowed" and leave the cache unchanged |
| Robots.FetchedRulesetIsCached | server/utils/robotsChecker.js:30-38 | a fetched non-empty robots.txt is parsed, stored under its URL with the time of storing, and gives the answer; no other entry changes |
| Robots.OnlyOwnKeyChanges | server/utils/robotsChecker.js:33-36 | a call changes at most the entry for its own robots.txt URL |
| Robots.DenialComesFromCachedRuleset | server/utils/robotsChecker.js:10-43 | "disallowed" is only ever answered by a ruleset that is in the cache after the call |
| Robots.SecondCallWithinTimeoutHitsCache | server/utils/robotsChecker.js:16-21 | a second call within the hour fetches nothing, keeps the cache and gives the same answer |
| Robots.RobotsChecker.constructor | server/utils/robotsChecker.js:5-8 | the checker starts with an empty cache and a one-hour timeout |
| Robots.RobotsChecker.IsAllowed | server/utils/robotsChecker.js:10-43 | the answer, the new cache and the URLs fetched are those of the cache policy applied to the old cache |
| Robots.RobotsChecker.ClearCache | server/utils/robotsChecker.js:63-65 | the cache is emptied |
| ScraperRoute.Completeness | server/routes/scraper.js:74-79 | completeness counts the truthy headline, author, date and source, so it is at most 4 |
| ScraperRoute.Enhance | server/routes/scraper.js:61-80 | the flags match the truthiness of the fields and completeness is the count of truthy headline, author, date and source; author, date, summary and image pass through; a falsy headline becomes "No headline available", a falsy source the page's domain and a falsy URL the page URL, and truthy ones are kept |
| ScraperRoute.Validate | server/routes/scraper.js:56-80 | one enhanced article for each article with a headline longer than 5, in order |
| ScraperRoute.ValidatedHeadlines | server/routes/scraper.js:56-63 | every article with a headline longer than 5 is kept, in order, and keeps its headline |
| ScraperRoute.RouteKeepsEveryExtractedArticle | server/routes/scraper.js:56-60 | the route's headline filter drops none of the engine's articles |
| ScraperRoute.SumCompleteness | server/routes/scraper.js:93-95 | the completeness total is at most 4 per article |
| ScraperRoute.Stats | server/routes/scraper.js:89-96 | each count is the number of articles whose flag is set, so at most the number of articles; the average is absent exactly for an empty list and otherwise is the completeness total divided by the number of articles, in 0..4 |
| ScraperRoute.Classify | server/routes/scraper.js:98-118 | 404 "Website not found" exactly for ENOTFOUND, 503 "Connection refused by server" exactly for ECONNREFUSED, 403 "Access forbidden by website" exactly for another error with an HTTP 403 response, otherwise 500 "Failed to scrape website"; details only for a 500 in development |
| ScraperRoute.SuccessResponse | server/routes/scraper.js:82-97 | status 200; the articles are the validated extraction, `totalFound` their number, `source` the page's domain, `scrapedAt` the given time and the statistics those of the returned articles |
| ScraperRoute.PageOutcome | server/routes/scraper.js:34-118 | a failed page fetch gives the classified error; a fetched page gives a 200 whose articles are the validated extraction, one per extracted article and at most 20; the status is always one of 200, 403, 404, 500, 503 |
| ScraperRoute.Scrape | server/routes/scraper.js:10-119 | a missing or unparsable URL gives 400 and leaves the cache alone; otherwise the robots gate decides: a refusal gives 403 without fetching the page, and permission fetches the page and returns the extraction or the classified error |
| ScraperRoute.ContentExcerpt | server/routes/scraper.js:137 | null exactly for a falsy body; otherwise its first 500 characters |
| ScraperRoute.RobotsCheck | server/routes/scraper.js:122-147 | a missing parameter gives 400; an unparsable URL or a failed second fetch gives the "allowed" fallback; otherwise the gate's answer, the robots URL and the excerpt |
| NewsHook.FilterArticles | client/src/hooks/useNewsScraper.js:27-64 | a blank keyword returns the list unchanged; otherwise every kept article matches in a truthy headline, summary, author or source, ignoring case |
| NewsHook.FilterArticlesKeepsMatches | client/src/hooks/useNewsScraper.js:40-60 | for a keyword with content, exactly the matching articles are kept, in their original order |
| NewsHook.FilterArticlesCounts | client/src/hooks/useNewsScraper.js:40-60 | for a keyword with content, every copy of a matching article is kept and no copy of any other |
| NewsHook.FilterArticlesIdempotent | client/src/hooks/useNewsScraper.js:27-64 | filtering twice with the same keyword is filtering once |
| NewsHook.Insert | client/src/hooks/useNewsScraper.js:73 | inserting one article adds exactly that article to the list |
| NewsHook.InsertionSort | client/src/hooks/useNewsScraper.js:69-73 | the sorted copy is a permutation of the input |
| NewsHook.InsertKeepsOrder | client/src/hooks/useNewsScraper.js:73 | inserting into an ordered list keeps it ordered |
| NewsHook.InsertionSortOrders | client/src/hooks/useNewsScraper.js:73 | with a comparator that never orders two articles both ways, no two neighbours of the result are out of order |
| NewsHook.ByDateAntisymmetric | client/src/hooks/useNewsScraper.js:73-81 | the date comparator never orders two articles both ways |
| NewsHook.NeighboursGiveDatedFirst | client/src/hooks/useNewsScraper.js:74-76 | a list ordered by the date comparator has every dated article before every undated one |
| NewsHook.SortArticles | client/src/hooks/useNewsScraper.js:66-93 | an empty list gives []; the result is a permutation of the input; an unknown key keeps the order; "date" puts dated articles first and orders every pair of neighbours by the date comparator |
| NewsHook.DateSortNewestFirst | client/src/hooks/useNewsScraper.js:72-80 | after the "date" sort, of two neighbouring dated articles whose dates both parse, the first is at least as recent |
| NewsHook.CollationSortsOrder | client/src/hooks/useNewsScraper.js:82-89 | with a consistent `localeCompare`, the headline and source sorts order every pair of neighbours |
| TextUtils.TruncateText | client/src/utils/textUtils.js:1-4 | empty or short text is returned as is; otherwise "..." follows a slice of the first `maxLength` characters that has no whitespace at either end and only whitespace around it |
| TextUtils.EllipsisShape | client/src/utils/textUtils.js:3 | a trimmed cut with "..." appended ends in the ellipsis, and its text is a slice of the cut with non-whitespace ends and only whitespace around it |
| TextUtils.CleanText | client/src/utils/textUtils.js:6-9 | the client's `cleanText` is the server's; its result is clean and is exactly the words of the input, in order, joined by single spaces |
| TextUtils.CleanTextIdempotent | client/src/utils/textUtils.js:6-9 | cleaning twice is cleaning once |
| TextUtils.CleanTextIsJoinedWords | server/utils/cheerioHelper.js:302-304 | cleaning keeps every word of the input, in order, and only replaces the whitespace around and between them by single spaces |
| TextUtils.SplitOnWhitespace | client/src/utils/textUtils.js:17 | `split(/\s+/)` gives at least one piece and no piece contains whitespace |
| TextUtils.JoinSplitOnWhitespace | client/src/utils/textUtils.js:17 | joining the pieces with single spaces is the string with each whitespace run collapsed |
| TextUtils.SplitJoinWords | client/src/utils/textUtils.js:17 | splitting a sentence of non-empty whitespace-free words joined by spaces gives back the words |
| TextUtils.SplitPiecesKeep | client/src/utils/textUtils.js:16-17 | splitting keeps any property that every character of the input has |
| TextUtils.Words | client/src/utils/textUtils.js:46 | the words of a text are non-empty and contain no whitespace |
| TextUtils.SplitEmptyPiecesAtEnds | client/src/utils/textUtils.js:46 | `split(/\s+/)` yields an empty piece only first, after leading whitespace, or last, before trailing whitespace |
| TextUtils.WordsTrimStart | client/src/utils/textUtils.js:46 | leading whitespace adds no word |
| TextUtils.WordsAppendSpaces | client/src/utils/textUtils.js:46 | trailing whitespace adds no word |
| TextUtils.TrimmedSplitIsWords | client/src/utils/textUtils.js:46 | the trimmed text splits into exactly the text's words; blank text has none |
| TextUtils.SplitOfCollapsed | server/utils/cheerioHelper.js:303 | collapsing whitespace runs to single spaces does not change the split |
| TextUtils.LongWordsChars | client/src/utils/textUtils.js:14-18 | every candidate keyword consists of lower-case word characters only |
| TextUtils.ExtractKeywords | client/src/utils/textUtils.js:11-21 | an empty text gives no keywords; otherwise the keywords are longer than 3, pairwise distinct, and an order-preserving subsequence of the long words |
| TextUtils.ExtractKeywordsProperties | client/src/utils/textUtils.js:11-21 | the keywords are longer than 3, use only lower-case word characters, and are pairwise distinct; they are exactly the long words of the text, in order of first appearance |
| TextUtils.EscapeRegExp | client/src/utils/textUtils.js:30-32 | one backslash is added per metacharacter |
| TextUtils.UnescapeEscapeRegExp | client/src/utils/textUtils.js:30-32 | removing the added backslashes gives back the input, so escaping loses nothing |
| TextUtils.CapitalizeFrom | client/src/utils/textUtils.js:36 | exactly the word characters that start a word are upper-cased; every other character is kept |
| TextUtils.CapitalizeWords | client/src/utils/textUtils.js:34-37 | same length; a character changes only where a word starts after a non-word character |
| TextUtils.CapitalizeWordsIdempotent | client/src/utils/textUtils.js:34-37 | capitalising twice is capitalising once |
| TextUtils.RemoveHtmlTags | client/src/utils/textUtils.js:39-42 | the result is no longer than the input and draws all its characters from it; text without `<` is unchanged |
| TextUtils.RemoveHtmlTagsLeavesNoTag | client/src/utils/textUtils.js:41 | no complete tag is left: no `<` is followed later by a `>` |
| TextUtils.RemoveHtmlTagsOfTagFree | client/src/utils/textUtils.js:41 | text without a complete tag is left unchanged |
| TextUtils.RemoveHtmlTagsIdempotent | client/src/utils/textUtils.js:39-42 | removing tags twice is removing them once |
| TextUtils.CountWords | client/src/utils/textUtils.js:44-47 | zero exactly for the empty string; whitespace-only text counts as one word; any other text counts its words, whatever whitespace separates them |
| TextUtils.CountWordsOfSentence | client/src/utils/textUtils.js:44-47 | words joined by single spaces are counted exactly |
| DateUtils.FirstMatch | client/src/utils/dateUtils.js:14-16 | the index of the first pattern that matches, or absent when none does |
| DateUtils.TryCustomParse | client/src/utils/dateUtils.js:5-25 | null exactly when no pattern matches; otherwise an ISO string `YYYY-MM-DDT00:00:00Z` with decimal digits |
| DateUtils.DayFirstNeverChosen | client/src/utils/dateUtils.js:6-12 | the day-first patterns are never the first match, because identical earlier patterns always win |
| DateUtils.TryCustomParseResults | client/src/utils/dateUtils.js:5-25 | null exactly when no pattern matches; YYYY-MM-DD is kept in order; any slash or dash date is read month first |
| DateUtils.LabelTestMakesNoDifference | client/src/utils/dateUtils.js:19-20 | testing the format label the way the always-truthy array literal does changes no result |
| DateUtils.ParseDate | client/src/utils/dateUtils.js:28-37 | an empty string gives null; a string the parser accepts gives its time; anything else comes from the custom patterns |
| DateUtils.ParseDateFallback | client/src/utils/dateUtils.js:31-36 | when direct parsing fails, the result is the parse of the ISO string built from the first matching pattern, or null |
| DateUtils.NatToString | client/src/utils/dateUtils.js:49 | a number is written with at least one digit |
| DateUtils.NatToStringValue | client/src/utils/dateUtils.js:49 | the written digits read back as the number |
| DateUtils.IntToString | client/src/utils/dateUtils.js:49 | a negative count is written with a leading minus |
| DateUtils.FormatDate | client/src/utils/dateUtils.js:40-58 | by elapsed milliseconds: under a day "Today", under two "Yesterday", up to eight "N days ago" with N in 2..7, a future date "-N days ago" with N the floored day count written out, later the locale date; an unparsable date gives "Date not available" |
| DateUtils.DayCount | client/src/utils/dateUtils.js:45 | the floored day count falls in the bucket the milliseconds belong to |
| DateUtils.IsRecentDate | client/src/utils/dateUtils.js:61-68 | recent exactly when the date parses and is at most `daysThreshold` days of milliseconds old |
| DateUtils.WithinDays | client/src/utils/dateUtils.js:66-67 | an age counted as a fraction of days is within the threshold exactly when its milliseconds are at most the threshold times a day |
| DateUtils.NestedFloors | client/src/utils/dateUtils.js:78-81 | the chained floors equal single floors by 60000, 3600000 and 86400000 milliseconds |
| DateUtils.GetRelativeTime | client/src/utils/dateUtils.js:71-95 | by elapsed milliseconds: under a minute in seconds, under an hour in minutes, under a day in hours, under a week in days, the locale date after that; each count is rounded down; an unparsable date gives "Unknown time" |
| UrlUtils.ValidateUrl | client/src/utils/urlUtils.js:1-8 | valid exactly when the URL parser accepts the string |
| UrlUtils.NormalizeUrl | client/src/utils/urlUtils.js:10-15 | unchanged exactly when the input starts with "http://" or "https://"; otherwise "https://" is prefixed; the result always has a scheme |
| UrlUtils.NormalizeUrlIdempotent | client/src/utils/urlUtils.js:10-15 | normalising twice is normalising once |
| UrlUtils.MakeAbsoluteUrl | client/src/utils/urlUtils.js:17-23 | the resolved URL, or the relative input itself when resolution fails |
| UrlUtils.ExtractDomain | client/src/utils/urlUtils.js:25-31 | "Unknown Source" for an unparsable URL; otherwise the host name unchanged when it has no "www.", and otherwise the host name with the four characters of its first "www." cut out |
| UrlUtils.FirstDot | client/src/utils/urlUtils.js:35 | the position of the first dot, or absent when there is none |
| UrlUtils.IsValidDomain | client/src/utils/urlUtils.js:33-36 | an accepted name has the regular expression's shape: at least 6 characters, starting with a letter or digit and ending with a letter |
| UrlUtils.IsValidDomainIsShape | client/src/utils/urlUtils.js:33-36 | accepted exactly when the name splits into a 3..63-character label with alphanumeric ends, a dot, and a top-level domain of two or more letters |
| UrlUtils.AcceptedHasOneDot | client/src/utils/urlUtils.js:35 | an accepted name contains exactly one dot |
| UrlUtils.TwoDotsRejected | client/src/utils/urlUtils.js:35 | a name with two dots, such as "www.example.com", is rejected |

## Left out

- Network and process I/O are not modelled: `axios`, Express routing and JSON encoding, `cheerio.load`, `console` logging and `process.env`. They become parameters: a page-fetch outcome, a robots fetch function, a `development` flag and a `load` function.
- Concurrency is not modelled: the `async` calls are sequential steps, and the process-wide checker is one object passed by reference.
- CSS selector matching, robots.txt rule semantics (`robots-parser`), `new URL`, `new Date`, `Intl.RelativeTimeFormat`, `toLocaleDateString` and `localeCompare` are taken as parameters, not modelled.
- Strings are sequences of code points rather than UTF-16 units, so lengths of text outside the Basic Multilingual Plane differ.
- `toLowerCase`/`toUpperCase` are modelled on ASCII letters only; other scripts are left as they are. For the same reason `\w` and `\b` are modelled on ASCII, as in JavaScript.
- A missing attribute (`undefined`) and an empty one are both modelled as "": every use in the code tests only their truthiness.
- `Array.prototype.sort` is modelled as a stable insertion sort driven by the same comparator. Its exact sequence of comparisons, and its result for inconsistent comparators, are engine-specific and are not modelled.
- `GET /robots-check` fetches robots.txt twice, once through the gate and once directly. The model uses the same fetch function for both, so the two fetches cannot disagree.
- `getUrlPath` (client/src/utils/urlUtils.js:38-44) is not modelled: the URL parameter exposes no path name.
- `highlightKeyword` (client/src/utils/textUtils.js:23-28) is not modelled: it builds a regular expression at run time.
- `ScraperRoute.Stats`: `averageCompleteness` for no articles is NaN in the code; it is modelled as `None`.
- `DateUtils.IsRecentDate`: `daysThreshold` is modelled as an integer; the code accepts any number.
- `DateUtils.ParseDate`: times are integers of milliseconds and an invalid `Date` is `None`.
- `TextUtils.EscapeRegExp`: the contract gives the length of the result and its round trip through `Unescape`, not each character.
- `TextUtils.RemoveHtmlTags`: the contract gives the result's bound, its alphabet, the absence of tags and idempotence, not which characters are removed.
- `CheerioHelper.FindNearbyDate` and `CheerioHelper.FindNearbyImage` are stated as where their value can come from, not as full values.
