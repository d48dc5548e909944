/**
 * What the scraper reads out of a results page once the HTML has been parsed
 * and the CSS selectors have been matched. Each field is the element or
 * attribute the selector finds, `None` when it finds nothing.
 */
module Dom {
  import opened Wrappers

  /** The first `header h4 a` of a card: its `href` and `title` attributes and its text. */
  datatype Anchor = Anchor(href: Option<string>, title: Option<string>, text: string)

  /** The first `<img>` inside a `<figure>`: its `src` and `lazy-src` attributes. */
  datatype Img = Img(src: Option<string>, lazySrc: Option<string>)

  /** A `<figure>` of a card: its inline `style` attribute and its first `<img>`. */
  datatype Figure = Figure(style: Option<string>, img: Option<Img>)

  /** One `ul.data-points-2c li` item: its `name` attribute and its text. */
  datatype DataPoint = DataPoint(name: Option<string>, text: string)

  /**
   * One `<article class="placard">` listing card: its `data-id` attribute,
   * the `header h4 a` link, the text of `header .subtitle-beta`, the text of
   * `.company-logos li.company-name p`, the data-point items and the figures,
   * each list in document order.
   */
  datatype Article = Article(
    dataId: Option<string>,
    headerLink: Option<Anchor>,
    subtitle: Option<string>,
    companyName: Option<string>,
    dataPoints: seq<DataPoint>,
    figures: seq<Figure>)

  /**
   * The parts of a page the scraper looks at, in document order: listing
   * cards, anchors carrying `data-automation-id="NextPage"` (with their
   * `href`, if any) and everything else.
   */
  datatype Node = Placard(article: Article) | NextPageAnchor(href: Option<string>) | OtherNode

  type Page = seq<Node>
}
