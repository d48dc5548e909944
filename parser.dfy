/**
 * The listing extractor, the next-page locator and the CSV sink of
 * src/parser.py, over the abstract page of module Dom.
 */
module Parser {
  import opened Wrappers
  import opened Text
  import opened Dom

  /** The price recorded for a card that has no `li[name="Price"]` item. */
  const UponRequest := "upon request"

  /** One listing record, the ten keys of the dictionary the parser builds. */
  datatype Listing = Listing(
    listingId: string,
    url: string,
    title: string,
    address: string,
    location: string,
    company: string,
    price: string,
    capRate: string,
    size: string,
    images: string)

  /** A CSV row: its cells. */
  type Row = seq<string>

  /** The CSV columns, in the order the writer uses. */
  const Header: Row := ["Listing ID", "URL", "Title", "Address", "Location", "Company", "Price", "Cap Rate", "Size", "Images"]

  // ---------------------------------------------------------------------------
  // Finding the cards

  /** `soup.find_all("article", class_="placard")`: the listing cards of a page, in document order. */
  function Placards(page: Page): (arts: seq<Article>)
    ensures |arts| <= |page|
  {
    if page == [] then []
    else (if page[0].Placard? then [page[0].article] else []) + Placards(page[1..])
  }

  /**
   * The cards found are exactly the page's cards: every card node is found,
   * nothing else is, and no card is found only on a page without cards.
   */
  lemma {:induction false} PlacardsOfPage(page: Page)
    ensures forall i :: 0 <= i < |page| && page[i].Placard? ==> page[i].article in Placards(page)
    ensures forall a :: a in Placards(page) ==> Placard(a) in page
    ensures Placards(page) == [] <==> forall i :: 0 <= i < |page| ==> !page[i].Placard?
  {
    if page != [] {
      PlacardsOfPage(page[1..]);
      var head := if page[0].Placard? then [page[0].article] else [];
      var tail := Placards(page[1..]);
      assert Placards(page) == head + tail;
      forall i | 0 <= i < |page| && page[i].Placard? ensures page[i].article in Placards(page) {
        if i > 0 {
          assert page[1..][i - 1] == page[i];
          assert page[i].article in tail;
        }
      }
      forall a | a in Placards(page) ensures Placard(a) in page {
        if a !in head {
          assert a in tail;
          assert Placard(a) in page[1..];
        }
      }
      if Placards(page) != [] {
        var a := Placards(page)[0];
        assert a in Placards(page);
        assert Placard(a) in page;
      }
    }
  }

  /** Cards are found in document order: the cards of two consecutive stretches of a page are those of the first, then those of the second. */
  lemma {:induction false} PlacardsInDocumentOrder(p1: Page, p2: Page)
    ensures Placards(p1 + p2) == Placards(p1) + Placards(p2)
  {
    if p1 == [] {
      assert p1 + p2 == p2;
    } else {
      PlacardsInDocumentOrder(p1[1..], p2);
      var head := if p1[0].Placard? then [p1[0].article] else [];
      assert (p1 + p2)[0] == p1[0];
      assert (p1 + p2)[1..] == p1[1..] + p2;
      AppendAssoc(head, Placards(p1[1..]), Placards(p2));
    }
  }

  // ---------------------------------------------------------------------------
  // One card

  predicate IsPriceItem(d: DataPoint) {
    d.name == Some("Price")
  }

  /** Item `i` is the first item named `Price`, the one `select_one('... li[name="Price"]')` finds. */
  predicate FirstPriceItem(points: seq<DataPoint>, i: int) {
    0 <= i < |points| && IsPriceItem(points[i]) && forall j :: 0 <= j < i ==> !IsPriceItem(points[j])
  }

  /** The `Price` field: the text of the first `li[name="Price"]` item, or the sentinel. */
  function PriceText(points: seq<DataPoint>): string {
    if points == [] then UponRequest
    else if IsPriceItem(points[0]) then Strip(points[0].text)
    else PriceText(points[1..])
  }

  /**
   * The price is the stripped text of the first item named `Price` wherever
   * that item stands, and exactly the sentinel when no item has that name.
   */
  lemma {:induction false} PriceIsFirstPriceItem(points: seq<DataPoint>)
    ensures forall i :: FirstPriceItem(points, i) ==> PriceText(points) == Strip(points[i].text)
    ensures (forall d :: d in points ==> !IsPriceItem(d)) ==> PriceText(points) == UponRequest
  {
    if points != [] && !IsPriceItem(points[0]) {
      PriceIsFirstPriceItem(points[1..]);
      forall i | FirstPriceItem(points, i) ensures PriceText(points) == Strip(points[i].text) {
        assert FirstPriceItem(points[1..], i - 1);
      }
    }
  }

  /**
   * The image a figure's inline style names: only when the style mentions
   * `background-image`, the text strictly between the first `url(` and the
   * next `)`, with `"` and then `'` stripped from both ends.
   */
  function StyleImage(style: string): Option<string> {
    if !Contains(style, "background-image") then None
    else
      var start := Find(style, "url(", 0);
      if start == -1 then None
      else
        var end := Find(style, ")", start);
        if end == -1 then None
        else
          assert style[end..end + 1] == ")" && style[start..start + 4] == "url(";
          assert forall k :: start <= k < start + 4 ==> style[k] == style[start..start + 4][k - start] != ')';
          assert style[end] == style[end..end + 1][0];
          Some(StripChar(StripChar(style[start + 4..end], '"'), '\''))
  }

  /** `img.get("src") or img.get("lazy-src")`, kept only when non-empty. */
  function ImgSource(img: Option<Img>): Option<string> {
    match img
    case None => None
    case Some(i) =>
      if i.src.Some? && i.src.value != "" then i.src
      else if i.lazySrc.Some? && i.lazySrc.value != "" then i.lazySrc
      else None
  }

  /** The images one figure contributes: the style image first, then the `<img>` source. */
  function FigureImages(f: Figure): seq<string> {
    var fromStyle := StyleImage(f.style.GetOr(""));
    var fromImg := ImgSource(f.img);
    (if fromStyle.Some? then [fromStyle.value] else []) + (if fromImg.Some? then [fromImg.value] else [])
  }

  /** The images of a card, figure after figure. */
  function ImagesOf(figures: seq<Figure>): (images: seq<string>)
    ensures |images| <= 2 * |figures|
  {
    if figures == [] then []
    else ImagesOf(figures[..|figures| - 1]) + FigureImages(figures[|figures| - 1])
  }

  /**
   * The record one card yields once its image URLs are collected; every
   * missing element gives `""`, a missing price gives the sentinel.
   */
  function CardRecord(a: Article, images: seq<string>): Listing {
    var link := a.headerLink;
    var points := a.dataPoints;
    Listing(
      listingId := Strip(a.dataId.GetOr("")),
      url := if link.Some? && link.value.href.Some? then Strip(link.value.href.value) else "",
      title := if link.Some? && link.value.title.Some? then Strip(link.value.title.value) else "",
      address := if link.Some? then Strip(link.value.text) else "",
      location := if a.subtitle.Some? then Strip(a.subtitle.value) else "",
      company := if a.companyName.Some? then Strip(a.companyName.value) else "",
      price := PriceText(points),
      capRate := if |points| > 0 then Strip(points[0].text) else "",
      size := if |points| > 1 then Strip(points[1].text) else "",
      images := Join(images, ";"))
  }

  /** The record one card yields. */
  function ListingOf(a: Article): Listing {
    CardRecord(a, ImagesOf(a.figures))
  }

  /** A style gives an image only when it mentions `background-image` and has a `url(` with a `)` after it. */
  lemma StyleImageOnlyIf(style: string)
    ensures StyleImage(style).Some? ==>
      Contains(style, "background-image") && Find(style, "url(", 0) >= 0 && Find(style, ")", Find(style, "url(", 0)) >= 0
  {
  }

  /**
   * The style rule on the usual inline style: after any prefix that mentions
   * `background-image` but not `url(`, a `url(...)` whose argument is bare or
   * wrapped in one kind of quote gives back exactly that argument.
   */
  lemma StyleImageRoundTrip(prefix: string, quote: string, u: string, rest: string)
    requires Contains(prefix, "background-image") && !Contains(prefix, "url(")
    requires quote == "" || quote == "\"" || quote == "'"
    requires ')' !in u
    requires u == [] || (u[0] != '"' && u[0] != '\'' && u[|u| - 1] != '"' && u[|u| - 1] != '\'')
    ensures StyleImage(prefix + ("url(" + (quote + u + quote) + ")" + rest)) == Some(u)
  {
    NoParenInQuoted(quote, u);
    StyleImageOfUrl(prefix, quote + u + quote, rest);
    Unquote(quote, u);
  }

  lemma NoParenInQuoted(quote: string, u: string)
    requires quote == "" || quote == "\"" || quote == "'"
    requires ')' !in u
    ensures ')' !in quote + u + quote
  {
  }

  /** The image of a style holding `url(inner)` after a prefix that mentions `background-image` but not `url(`: `inner` unquoted. */
  lemma StyleImageOfUrl(prefix: string, inner: string, rest: string)
    requires Contains(prefix, "background-image") && !Contains(prefix, "url(")
    requires ')' !in inner
    ensures StyleImage(prefix + ("url(" + inner + ")" + rest)) == Some(StripChar(StripChar(inner, '"'), '\''))
  {
    var b := "url(" + inner + ")" + rest;
    ContainsExtend(prefix, b, "background-image");
    assert b[..4] == "url(";
    FindAtSeam(prefix, b, "url(", 0);
    CloseParenAfterUrl(prefix, inner, rest);
    UrlArgument(prefix, inner, rest);
    StyleImageBetween(prefix + b, |prefix|, |prefix| + 4 + |inner|, inner);
  }

  /** Where the argument of `url(...)` sits in the style. */
  lemma UrlArgument(prefix: string, inner: string, rest: string)
    ensures (prefix + ("url(" + inner + ")" + rest))[|prefix| + 4..|prefix| + 4 + |inner|] == inner
  {
    var b := "url(" + inner + ")" + rest;
    assert (prefix + b)[|prefix|..] == b;
    assert b[4..4 + |inner|] == inner;
  }

  /** Unfolds `StyleImage` once the two `find` calls are known. */
  lemma StyleImageBetween(style: string, start: nat, end: nat, arg: string)
    requires Contains(style, "background-image")
    requires Find(style, "url(", 0) == start && Find(style, ")", start) == end
    requires start + 4 <= end ==> style[start + 4..end] == arg
    ensures StyleImage(style) == Some(StripChar(StripChar(arg, '"'), '\''))
  {
    ParenAfterUrl(style, start, end);
  }

  /** The `)` that `find` reaches from a `url(` lies after the whole `url(`. */
  lemma ParenAfterUrl(style: string, start: nat, end: nat)
    requires OccursAt(style, "url(", start) && OccursAt(style, ")", end) && start <= end
    ensures start + 4 <= end
  {
    assert style[start..start + 4] == "url(";
    assert style[end] == style[end..end + 1][0] == ')';
    forall k | start <= k < start + 4 ensures style[k] != ')' {
      assert style[k] == style[start..start + 4][k - start];
    }
  }

  /** In `prefix + "url(" + inner + ")" + rest`, with no `)` in `inner`, the first `)` after the `url(` is the one that closes it. */
  lemma CloseParenAfterUrl(prefix: string, inner: string, rest: string)
    requires ')' !in inner
    ensures Find(prefix + ("url(" + inner + ")" + rest), ")", |prefix|) == |prefix| + 4 + |inner|
  {
    var a := prefix + ("url(" + inner);
    assert ')' !in "url(" + inner;
    forall i | |prefix| <= i ensures !OccursAt(a, ")", i) {
      if i + 1 <= |a| {
        assert a[i..i + 1] == [a[i]];
        assert a[i] == ("url(" + inner)[i - |prefix|];
      }
    }
    FindAtSeam(a, ")" + rest, ")", |prefix|);
    UrlRegroup(prefix, inner, rest);
  }

  /** The style around a `url(...)`, regrouped. */
  lemma UrlRegroup(prefix: string, inner: string, rest: string)
    ensures prefix + ("url(" + inner) + (")" + rest) == prefix + ("url(" + inner + ")" + rest)
  {
  }

  /** Stripping `"` and then `'` removes one layer of either kind of quote around a value that has no quote at its ends. */
  lemma Unquote(quote: string, u: string)
    requires quote == "" || quote == "\"" || quote == "'"
    requires u == [] || (u[0] != '"' && u[0] != '\'' && u[|u| - 1] != '"' && u[|u| - 1] != '\'')
    ensures StripChar(StripChar(quote + u + quote, '"'), '\'') == u
  {
    var inner := quote + u + quote;
    if quote == "" {
      assert inner == u;
      StripCharWrapped(u, '"');
      StripCharWrapped(u, '\'');
    } else if quote == "\"" {
      assert inner == ['"'] + u + ['"'];
      StripCharWrapped(u, '"');
      StripCharWrapped(u, '\'');
    } else {
      assert inner == ['\''] + u + ['\''];
      StripCharWrapped(inner, '"');
      StripCharWrapped(u, '\'');
    }
  }

  /**
   * A figure may contribute two images, style first: a background image in
   * the inline style and a non-empty `src` on its `<img>`.
   */
  lemma FigureWithBoth(u: string, src: string, lazy: Option<string>)
    requires ')' !in u && '"' !in u && '\'' !in u
    requires src != ""
    ensures FigureImages(Figure(Some("background-image: url('" + u + "')"), Some(Img(Some(src), lazy)))) == [u, src]
  {
    BackgroundImagePrefix();
    SingleQuotedStyle(u);
    StyleImageRoundTrip("background-image: ", "'", u, "");
  }

  /** The usual prefix names `background-image` and has no `url(`. */
  lemma BackgroundImagePrefix()
    ensures Contains("background-image: ", "background-image") && !Contains("background-image: ", "url(")
  {
    var prefix := "background-image: ";
    assert OccursAt(prefix, "background-image", 0);
    forall i | 0 <= i ensures !OccursAt(prefix, "url(", i) {
      if i + 4 <= |prefix| {
        assert prefix[i + 3] != '(';
        assert prefix[i..i + 4][3] == prefix[i + 3];
      }
    }
  }

  /** The single-quoted style, split up as `StyleImageRoundTrip` reads it. */
  lemma SingleQuotedStyle(u: string)
    ensures "background-image: url('" + u + "')" == "background-image: " + ("url(" + ("'" + u + "'") + ")" + "")
  {
  }

  /** The images of a card are those of its leading figures followed by those of the rest. */
  lemma {:induction false} ImagesOfAppend(f1: seq<Figure>, f2: seq<Figure>)
    ensures ImagesOf(f1 + f2) == ImagesOf(f1) + ImagesOf(f2)
    decreases |f2|
  {
    if f2 == [] {
      assert f1 + f2 == f1;
    } else {
      var init := f2[..|f2| - 1];
      var last := f2[|f2| - 1];
      ImagesOfAppend(f1, init);
      assert f2 == init + [last];
      assert f1 + f2 == (f1 + init) + [last];
      ImagesOfSnoc(f1 + init, last);
      ImagesOfSnoc(init, last);
      AppendAssoc(ImagesOf(f1), ImagesOf(init), FigureImages(last));
    }
  }

  /** One more figure adds its images at the end. */
  lemma ImagesOfSnoc(figures: seq<Figure>, f: Figure)
    ensures ImagesOf(figures + [f]) == ImagesOf(figures) + FigureImages(f)
  {
    assert (figures + [f])[..|figures|] == figures;
  }

  /**
   * The `Images` cell keeps every collected URL: splitting it at `;` gives
   * back the images in figure order, provided there is at least one and none
   * contains `;`. With no image at all the cell is empty.
   */
  lemma ImagesCellRoundTrip(a: Article)
    ensures ImagesOf(a.figures) == [] ==> ListingOf(a).images == ""
    ensures ImagesOf(a.figures) != [] && (forall i :: 0 <= i < |ImagesOf(a.figures)| ==> ';' !in ImagesOf(a.figures)[i]) ==>
      Split(ListingOf(a).images, ';') == ImagesOf(a.figures)
  {
    var images := ImagesOf(a.figures);
    if images != [] && (forall i :: 0 <= i < |images| ==> ';' !in images[i]) {
      SplitJoin(images, ';');
    }
  }

  /**
   * Cap rate and size are taken by position, whatever the items are named:
   * when the first item is the price item the cap rate repeats the price,
   * and when only the second is, the size repeats it.
   */
  lemma PositionalFieldsIgnoreNames(a: Article)
    ensures |a.dataPoints| > 0 && IsPriceItem(a.dataPoints[0]) ==> ListingOf(a).capRate == ListingOf(a).price
    ensures |a.dataPoints| > 1 && !IsPriceItem(a.dataPoints[0]) && IsPriceItem(a.dataPoints[1]) ==>
      ListingOf(a).size == ListingOf(a).price
  {
    var points := a.dataPoints;
    if |points| > 0 && IsPriceItem(points[0]) {
      assert ListingOf(a).price == PriceText(points) == Strip(points[0].text);
    }
    if |points| > 1 && !IsPriceItem(points[0]) && IsPriceItem(points[1]) {
      assert PriceText(points[1..]) == Strip(points[1].text);
      assert ListingOf(a).price == PriceText(points);
    }
  }

  /**
   * Each field falls back on its own default when its element is missing,
   * whatever the rest of the card holds: `""` for the text fields, the
   * sentinel for the price, and no cap rate or size without enough items.
   */
  lemma CardFieldDefaults(a: Article)
    ensures a.dataId.None? ==> ListingOf(a).listingId == ""
    ensures a.headerLink.None? ==> ListingOf(a).url == "" && ListingOf(a).title == "" && ListingOf(a).address == ""
    ensures a.headerLink.Some? && a.headerLink.value.href.None? ==> ListingOf(a).url == ""
    ensures a.headerLink.Some? && a.headerLink.value.title.None? ==> ListingOf(a).title == ""
    ensures a.subtitle.None? ==> ListingOf(a).location == ""
    ensures a.companyName.None? ==> ListingOf(a).company == ""
    ensures a.dataPoints == [] ==> ListingOf(a).price == UponRequest && ListingOf(a).capRate == ""
    ensures |a.dataPoints| < 2 ==> ListingOf(a).size == ""
    ensures ImagesOf(a.figures) == [] ==> ListingOf(a).images == ""
  {
    assert Strip("") == "";
  }

  /** Every field except the image list is stripped of surrounding white space. */
  lemma CardFieldsStripped(a: Article)
    ensures var l := ListingOf(a);
      && Stripped(l.listingId) && Stripped(l.url) && Stripped(l.title) && Stripped(l.address)
      && Stripped(l.location) && Stripped(l.company) && Stripped(l.price) && Stripped(l.capRate) && Stripped(l.size)
  {
    var l := ListingOf(a);
    StrippedOrBlank(a.dataId, l.listingId);
    var link := a.headerLink;
    if link.Some? {
      StrippedOrBlank(Some(link.value.text), l.address);
      StrippedOrBlank(link.value.href, l.url);
      StrippedOrBlank(link.value.title, l.title);
    }
    StrippedOrBlank(a.subtitle, l.location);
    StrippedOrBlank(a.companyName, l.company);
    var points := a.dataPoints;
    StrippedOrBlank(if |points| > 0 then Some(points[0].text) else None, l.capRate);
    StrippedOrBlank(if |points| > 1 then Some(points[1].text) else None, l.size);
    PriceStripped(points);
  }

  /** A field read as the stripped text of an optional element, `""` when it is missing, is stripped. */
  lemma StrippedOrBlank(element: Option<string>, field: string)
    requires field == if element.Some? then Strip(element.value) else ""
    ensures Stripped(field)
  {
    if element.Some? {
      StripIsStripped(element.value);
    }
  }

  /** The price is the stripped text of an item or the sentinel, so it is stripped too. */
  lemma {:induction false} PriceStripped(points: seq<DataPoint>)
    ensures Stripped(PriceText(points))
  {
    if points == [] {
      assert UponRequest[0] == 'u' && UponRequest[|UponRequest| - 1] == 't';
    } else if IsPriceItem(points[0]) {
      StripIsStripped(points[0].text);
    } else {
      PriceStripped(points[1..]);
    }
  }

  /** `src or lazy-src`: a non-empty `src` wins, else a non-empty `lazy-src`, else the `<img>` gives nothing. */
  lemma ImgSourceChoice(img: Img)
    ensures img.src.Some? && img.src.value != "" ==> ImgSource(Some(img)) == img.src
    ensures (img.src.None? || img.src.value == "") && img.lazySrc.Some? && img.lazySrc.value != "" ==>
      ImgSource(Some(img)) == img.lazySrc
    ensures (img.src.None? || img.src.value == "") && (img.lazySrc.None? || img.lazySrc.value == "") ==>
      ImgSource(Some(img)) == None
  {
  }

  /** An `<img>` whose `src` is missing or empty adds its `lazy-src` after whatever the figure's style gives. */
  lemma FigureFallsBackToLazySrc(style: Option<string>, src: Option<string>, lazy: string)
    requires src.None? || src.value == ""
    requires lazy != ""
    ensures FigureImages(Figure(style, Some(Img(src, Some(lazy))))) == FigureImages(Figure(style, None)) + [lazy]
  {
  }

  /** The `for figure in art.select("figure")` loop: collects the images of a card. */
  method CollectImages(figures: seq<Figure>) returns (images: seq<string>)
    ensures images == ImagesOf(figures)
  {
    images := [];
    for i := 0 to |figures|
      invariant images == ImagesOf(figures[..i])
    {
      var figure := figures[i];
      assert figures[..i + 1][..i] == figures[..i];
      ghost var done := ImagesOf(figures[..i + 1]);
      assert done == images + FigureImages(figure);
      var fromStyle := StyleImage(figure.style.GetOr(""));
      if fromStyle.Some? {
        images := images + [fromStyle.value];
      }
      var src := ImgSource(figure.img);
      if src.Some? {
        images := images + [src.value];
      }
    }
    assert figures[..|figures|] == figures;
  }

  /** The body of the card loop: the record for one card. */
  method ExtractListing(art: Article) returns (listing: Listing)
    ensures listing == ListingOf(art)
  {
    var images := CollectImages(art.figures);
    listing := CardRecord(art, images);
  }

  /** The records of a sequence of cards: one per card, in the same order. */
  function ListingsOf(arts: seq<Article>): (listings: seq<Listing>)
    ensures |listings| == |arts|
  {
    if arts == [] then [] else ListingsOf(arts[..|arts| - 1]) + [ListingOf(arts[|arts| - 1])]
  }

  /** Record `i` is the record of card `i`. */
  lemma {:induction false} ListingsOfCards(arts: seq<Article>)
    ensures forall i :: 0 <= i < |arts| ==> ListingsOf(arts)[i] == ListingOf(arts[i])
  {
    if arts != [] {
      var init := arts[..|arts| - 1];
      ListingsOfCards(init);
      forall i | 0 <= i < |arts| ensures ListingsOf(arts)[i] == ListingOf(arts[i]) {
        if i < |init| { assert arts[i] == init[i]; }
      }
    }
  }

  /** The records of one card more. */
  lemma ListingsOfPrefix(arts: seq<Article>, i: nat)
    requires i < |arts|
    ensures ListingsOf(arts[..i + 1]) == ListingsOf(arts[..i]) + [ListingOf(arts[i])]
  {
    assert arts[..i + 1][..i] == arts[..i];
  }

  /**
   * `parse_articles_from_string`: exactly one record per listing card, in
   * document order, and nothing else (with `PlacardsOfPage`, a page without
   * cards gives no record).
   */
  method ParseArticlesFromString(page: Page) returns (listings: seq<Listing>)
    ensures listings == ListingsOf(Placards(page))
  {
    var articles := Placards(page);
    listings := [];
    for i := 0 to |articles|
      invariant listings == ListingsOf(articles[..i])
    {
      var listing := ExtractListing(articles[i]);
      ListingsOfPrefix(articles, i);
      listings := listings + [listing];
    }
    assert articles[..|articles|] == articles;
  }

  // ---------------------------------------------------------------------------
  // The next page

  /** Node `i` is the first anchor of the page marked as the next-page link. */
  predicate FirstNextAnchor(page: Page, i: int) {
    0 <= i < |page| && page[i].NextPageAnchor? && forall j :: 0 <= j < i ==> !page[j].NextPageAnchor?
  }

  /** `extract_next_page_url`: the `href` of the first next-page anchor, if the page has one. */
  function ExtractNextPageUrl(page: Page): (next: Option<string>)
    ensures next.Some? ==> exists i :: 0 <= i < |page| && page[i].NextPageAnchor?
  {
    if page == [] then None
    else if page[0].NextPageAnchor? then page[0].href
    else
      var rest := ExtractNextPageUrl(page[1..]);
      assert rest.Some? ==> exists i :: 0 <= i < |page[1..]| && page[1..][i].NextPageAnchor?;
      rest
  }

  /**
   * The link followed is the `href` of the first next-page anchor, `None`
   * when that anchor has no `href` or when there is no such anchor.
   */
  lemma {:induction false} NextPageUrlOfFirstAnchor(page: Page)
    ensures forall i :: FirstNextAnchor(page, i) ==> ExtractNextPageUrl(page) == page[i].href
    ensures (forall i :: 0 <= i < |page| ==> !page[i].NextPageAnchor?) ==> ExtractNextPageUrl(page) == None
    decreases |page|
  {
    if page != [] && !page[0].NextPageAnchor? {
      NextPageUrlOfFirstAnchor(page[1..]);
      assert forall i :: FirstNextAnchor(page, i) ==> FirstNextAnchor(page[1..], i - 1);
      assert (forall i :: 0 <= i < |page| ==> !page[i].NextPageAnchor?) ==> (forall i :: 0 <= i < |page[1..]| ==> !page[1..][i].NextPageAnchor?);
    }
  }

  // ---------------------------------------------------------------------------
  // The CSV sink

  /** The row `csv.DictWriter` writes for a record, cells in header order. */
  function ToRow(l: Listing): Row {
    [l.listingId, l.url, l.title, l.address, l.location, l.company, l.price, l.capRate, l.size, l.images]
  }

  /** The record a ten-cell row reads back as. */
  function FromRow(r: Row): Listing
    requires |r| == |Header|
  {
    Listing(r[0], r[1], r[2], r[3], r[4], r[5], r[6], r[7], r[8], r[9])
  }

  function Rows(listings: seq<Listing>): seq<Row> {
    seq(|listings|, i requires 0 <= i < |listings| => ToRow(listings[i]))
  }

  /** Every row has one cell per column. */
  predicate WellShaped(rows: seq<Row>) {
    forall i :: 0 <= i < |rows| ==> |rows[i]| == |Header|
  }

  /** The records that well-shaped rows read back as, one per row. */
  function Records(rows: seq<Row>): (listings: seq<Listing>)
    requires WellShaped(rows)
    ensures |listings| == |rows|
    ensures forall i :: 0 <= i < |rows| ==> listings[i] == FromRow(rows[i])
  {
    if rows == [] then [] else [FromRow(rows[0])] + Records(rows[1..])
  }

  /** Reading a CSV file back: a header row, then one record per ten-cell row. */
  function ReadCsv(rows: seq<Row>): Option<seq<Listing>> {
    if rows == [] || rows[0] != Header || !WellShaped(rows[1..]) then None
    else Some(Records(rows[1..]))
  }

  /** The files after `append_to_csv(listings, path, append)`: `"w"` truncates and writes the header, `"a"` adds rows only. */
  function Written(files: map<string, seq<Row>>, path: string, listings: seq<Listing>, append: bool): map<string, seq<Row>> {
    var kept := if append && path in files then files[path] else [];
    files[path := kept + (if append then [] else [Header]) + Rows(listings)]
  }

  /** The rows of two batches of records are the rows of the first batch, then those of the second. */
  lemma RowsAppend(a: seq<Listing>, b: seq<Listing>)
    ensures Rows(a + b) == Rows(a) + Rows(b)
  {
    var l, r := Rows(a + b), Rows(a) + Rows(b);
    forall i | 0 <= i < |l| ensures l[i] == r[i] {
      if i < |a| { assert (a + b)[i] == a[i]; } else { assert (a + b)[i] == b[i - |a|]; }
    }
  }

  /** What `append_to_csv` leaves in the file it writes: the header and the rows, or the rows after what the file held (only the rows when it did not exist). */
  lemma WrittenContent(files: map<string, seq<Row>>, path: string, listings: seq<Listing>, append: bool)
    ensures !append ==> Written(files, path, listings, append) == files[path := [Header] + Rows(listings)]
    ensures append && path in files ==> Written(files, path, listings, append) == files[path := files[path] + Rows(listings)]
    ensures append && path !in files ==> Written(files, path, listings, append) == files[path := Rows(listings)]
  {
    assert [] + [Header] == [Header];
    if append && path in files {
      assert files[path] + [] == files[path];
    } else if append {
      assert [] + [] + Rows(listings) == Rows(listings);
    }
  }

  /** A freshly written file reads back as exactly the records written, in order. */
  lemma ReadFresh(listings: seq<Listing>)
    ensures ReadCsv([Header] + Rows(listings)) == Some(listings)
  {
    var rows := [Header] + Rows(listings);
    assert rows[1..] == Rows(listings);
    assert Records(Rows(listings)) == listings;
  }

  /** Appending to a readable file adds the new records after the old ones, with no second header and no deduplication. */
  lemma ReadAppended(rows: seq<Row>, old_: seq<Listing>, more: seq<Listing>)
    requires ReadCsv(rows) == Some(old_)
    ensures ReadCsv(rows + Rows(more)) == Some(old_ + more)
  {
    var all := rows + Rows(more);
    assert all[0] == rows[0];
    assert all[1..] == rows[1..] + Rows(more);
    RecordsOfRows(more);
    RecordsAppend(rows[1..], Rows(more));
  }

  /** The rows written for some records read back as those records. */
  lemma RecordsOfRows(listings: seq<Listing>)
    ensures WellShaped(Rows(listings)) && Records(Rows(listings)) == listings
  {
  }

  /** Reading rows is done row by row. */
  lemma RecordsAppend(a: seq<Row>, b: seq<Row>)
    requires WellShaped(a) && WellShaped(b)
    ensures WellShaped(a + b) && Records(a + b) == Records(a) + Records(b)
  {
    forall i | 0 <= i < |a + b| ensures |(a + b)[i]| == |Header| {
      if i < |a| { assert (a + b)[i] == a[i]; } else { assert (a + b)[i] == b[i - |a|]; }
    }
    var l, r := Records(a + b), Records(a) + Records(b);
    forall i | 0 <= i < |l| ensures l[i] == r[i] {
      if i < |a| { assert (a + b)[i] == a[i]; } else { assert (a + b)[i] == b[i - |a|]; }
    }
  }

  /**
   * The sink's contract: a write with `append=False` leaves one header and
   * the records; a later write with `append=True` adds its records after
   * them; no other file is touched.
   */
  lemma SinkRoundTrip(files: map<string, seq<Row>>, path: string, first: seq<Listing>, more: seq<Listing>)
    ensures var f1 := Written(files, path, first, false);
      var f2 := Written(f1, path, more, true);
      && f1[path] == [Header] + Rows(first)
      && ReadCsv(f1[path]) == Some(first)
      && ReadCsv(f2[path]) == Some(first + more)
      && |f2[path]| == 1 + |first| + |more|
      && f2.Keys == files.Keys + {path}
      && forall p :: p in files && p != path ==> f2[p] == files[p]
  {
    var f1 := Written(files, path, first, false);
    assert f1[path] == [Header] + Rows(first);
    ReadFresh(first);
    var f2 := Written(f1, path, more, true);
    assert f2[path] == f1[path] + Rows(more);
    ReadAppended([Header] + Rows(first), first, more);
  }

  /** The output file of one crawl, held as a map from path to rows. */
  class CsvStore {
    var files: map<string, seq<Row>>

    constructor (initial: map<string, seq<Row>>)
      ensures files == initial
    {
      files := initial;
    }

    /** `append_to_csv(listings, output_csv, append)`. */
    method AppendToCsv(listings: seq<Listing>, outputCsv: string, append: bool := true)
      modifies this
      ensures files == Written(old(files), outputCsv, listings, append)
    {
      var content: seq<Row> := if append && outputCsv in files then files[outputCsv] else [];
      if !append {
        content := content + [Header];
      } else {
        assert content + [] == content;
      }
      content := content + Rows(listings);
      files := files[outputCsv := content];
    }
  }
}
