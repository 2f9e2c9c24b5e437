/**
 * What the scraper obtains from code outside this model, given as values:
 * the HTTP client, BeautifulSoup's prettify, and the results of the CSS
 * selectors it runs on a parsed page.
 */
module Environment {
  import opened Wrappers

  /** What requests.get returns: the status code and the body text. */
  datatype Response = Response(status: int, text: string)

  /** The first <a> inside an <li>, with its href attribute when it has one. */
  datatype Anchor = Anchor(href: Option<string>)

  /** One <li> of the promoted-topics list, with its first anchor when it has one. */
  datatype LinkItem = LinkItem(anchor: Option<Anchor>)

  /**
   * The three selector results on an article page, as get_text() strings:
   * the first "div h1[id='content']", the first "section[aria-labelledby=article-byline]",
   * and every subheading or paragraph of the body selector, in document order.
   */
  datatype ArticlePage = ArticlePage(title: Option<string>, author: Option<string>, texts: seq<string>)

  /**
   * The outside world as functions of their inputs.
   *   get:          the response to a GET of a URL
   *   prettify:     BeautifulSoup(html).prettify()
   *   promoItems:   in a parsed index page, the <li> items of the list
   *                 ul[data-testid=topic-promos] in document order, or None when there is no such list
   *   articleParts: the selector results on a parsed article page
   */
  datatype Web = Web(
    get: string -> Response,
    prettify: string -> string,
    promoItems: string -> Option<seq<LinkItem>>,
    articleParts: string -> ArticlePage)
}
