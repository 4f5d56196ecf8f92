/**
 * The collaborators the code calls but does not implement, as oracles: the
 * parsed page (Cheerio's query API), the WHATWG URL parser and the `Date`
 * string parser. Only their interfaces are modelled; CSS-selector matching,
 * relative-reference resolution and date-string grammar are not.
 */
module Platform {
  import opened Wrappers

  /** A handle on one element of the parsed page. */
  type Elem = nat

  /**
   * The parsed page. Every query returns its elements in document order.
   * An attribute that is absent reads as "" (both are falsy, and every use
   * in the code is a truthiness test).
   */
  datatype Document = Document(
    select: string -> seq<Elem>,             // $(selector)
    find: (Elem, string) -> seq<Elem>,       // $(e).find(selector): matching descendants
    closest: (Elem, string) -> Option<Elem>, // $(e).closest(selector): e or its nearest matching ancestor
    matches: (Elem, string) -> bool,         // $(e).is(selector)
    parent: Elem -> Option<Elem>,            // $(e).parent()
    next: (Elem, string) -> Option<Elem>,    // $(e).next(selector): the next sibling, if it matches
    text: Elem -> string,                    // $(e).text()
    attr: (Elem, string) -> string)          // $(e).attr(name)

  /** The parts of a parsed URL the code reads. */
  datatype Url = Url(href: string, hostname: string)

  /** `new URL(s)` and `new URL(ref, base)`; None where the constructor throws. */
  datatype UrlParser = UrlParser(
    parse: string -> Option<Url>,
    resolve: (string, string) -> Option<Url>)

  /** `new Date(s).getTime()` in milliseconds since the epoch; None for an Invalid Date. */
  type DateParser = string -> Option<int>

  /** `$(selector).text()` over several elements: their texts, concatenated. */
  function SelectionText(doc: Document, elems: seq<Elem>): string {
    if elems == [] then [] else doc.text(elems[0]) + SelectionText(doc, elems[1..])
  }
}

/** The article record the engine produces and the client filters and sorts. */
module Articles {
  datatype Article = Article(
    headline: string,
    author: string,
    publishDate: string,
    source: string,
    url: string,
    summary: string,
    image: string)

  function Headlines(s: seq<Article>): (hs: seq<string>)
    ensures |hs| == |s|
    ensures forall i :: 0 <= i < |s| ==> hs[i] == s[i].headline
  {
    if s == [] then [] else [s[0].headline] + Headlines(s[1..])
  }

  lemma HeadlinesAppend(a: seq<Article>, b: seq<Article>)
    ensures Headlines(a + b) == Headlines(a) + Headlines(b)
  {
    assert |Headlines(a + b)| == |Headlines(a) + Headlines(b)|;
    forall i | 0 <= i < |a + b| ensures Headlines(a + b)[i] == (Headlines(a) + Headlines(b))[i] {
      if i >= |a| { assert (a + b)[i] == b[i - |a|]; }
    }
  }
}
