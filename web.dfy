/** What the scrapers receive from the network and from BeautifulSoup, as plain values. */
module Web {
  import opened Wrappers

  /** The outcome of one HTTP request: the parsed body, or a `requests.RequestException`. */
  datatype Fetch<T> = Fetched(body: T) | RequestFailed

  /** The body of a response as bytes (`response.content`). */
  type Bytes = seq<bv8>

  /** An `<a>` element: its `href` attribute, if it has one, and its text. */
  datatype Anchor = Anchor(href: Option<string>, text: string)
}
