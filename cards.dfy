/**
 * The page script the scraper runs inside the browser: for every auction
 * card it reads the lot label, the description, the price, the bid count,
 * the image and the link, writing "N/A" for any element the card lacks; the
 * Python side then appends the auction identifier to every tuple.
 *
 * A card is given by what the script's DOM queries return, so the queries
 * themselves are not modelled: the inner texts of all `.MuiTypography-body2`
 * elements in document order, the inner text of the first
 * `.MuiTypography-body1` element, every `<p>` element, the `src` of the first
 * `<img>` and the `href` of the first `<a>`.
 */
module Cards {
  import opened Wrappers
  import opened Digits
  import opened Text

  /** A `<p>` element: its inner text and the inner text of its first `<b>`, if any. */
  datatype Paragraph = Paragraph(text: string, bold: Option<string>)

  datatype Card = Card(
    body2: seq<string>,
    body1: Option<string>,
    paragraphs: seq<Paragraph>,
    image: Option<string>,
    anchor: Option<string>)

  /** The six-element array the script pushes for each card. */
  datatype Article = Article(
    lote: string, descripcion: string, precio: string, ofertas: nat, imagen: string, enlace: string)

  /** The seven-element tuple handed to the database: an article and its auction id. */
  datatype Record = Record(
    lote: string, descripcion: string, precio: string, ofertas: nat, imagen: string, enlace: string,
    subastaId: string)

  /** The label that marks the paragraph holding the bid count. */
  const BidLabel: string := "Ofertas:"

  /**
   * The count a paragraph contributes, if any: it must mention the label and
   * have a `<b>` whose text keeps at least one digit once every non-digit is
   * removed (otherwise `parseInt` yields NaN and the paragraph is ignored).
   */
  function BidOf(p: Paragraph): (r: Option<nat>)
    ensures r.Some? <==>
      Contains(p.text, BidLabel) && p.bold.Some?
      && exists i :: 0 <= i < |p.bold.value| && IsDigit(p.bold.value[i])
    // the count is the `<b>` text's digits, in order, read as a decimal number
    ensures r.Some? ==> r.value == DecimalValue(DigitsOnly(p.bold.value))
  {
    if Contains(p.text, BidLabel) && p.bold.Some? && DigitsOnly(p.bold.value) != []
    then Some(DecimalValue(DigitsOnly(p.bold.value)))
    else None
  }

  /** The value `ofertas` holds after the script's loop over `ps`: every contributing paragraph overwrites it. */
  function LastBid(ps: seq<Paragraph>): nat
  {
    if ps == [] then 0
    else match BidOf(ps[|ps| - 1])
      case Some(n) => n
      case None => LastBid(ps[..|ps| - 1])
  }

  /** The count is 0 or the count of one of the paragraphs: it is never made up. */
  lemma {:induction false} LastBidFromSomeParagraph(ps: seq<Paragraph>)
    ensures LastBid(ps) == 0 || exists k :: 0 <= k < |ps| && BidOf(ps[k]) == Some(LastBid(ps))
  {
    if ps != [] && BidOf(ps[|ps| - 1]).None? {
      var init := ps[..|ps| - 1];
      LastBidFromSomeParagraph(init);
      if LastBid(init) != 0 {
        var k :| 0 <= k < |init| && BidOf(init[k]) == Some(LastBid(init));
        assert ps[k] == init[k];
      }
    }
  }

  /** With no contributing paragraph the count stays at its initial 0. */
  lemma {:induction false} LastBidWithoutLabel(ps: seq<Paragraph>)
    requires forall i :: 0 <= i < |ps| ==> BidOf(ps[i]).None?
    ensures LastBid(ps) == 0
  {
    if ps != [] {
      LastBidWithoutLabel(ps[..|ps| - 1]);
    }
  }

  /**
   * The last contributing paragraph decides the count, whatever earlier ones
   * said: a later match overwrites an earlier one.
   */
  lemma {:induction false} LastBidLastMatchWins(ps: seq<Paragraph>, k: nat)
    requires k < |ps| && BidOf(ps[k]).Some?
    requires forall j :: k < j < |ps| ==> BidOf(ps[j]).None?
    ensures LastBid(ps) == BidOf(ps[k]).value
  {
    if k < |ps| - 1 {
      LastBidLastMatchWins(ps[..|ps| - 1], k);
    }
  }

  /** One more paragraph: it overwrites the count when it contributes one. */
  lemma LastBidStep(ps: seq<Paragraph>, i: nat)
    requires i < |ps|
    ensures LastBid(ps[..i + 1]) == match BidOf(ps[i]) case Some(n) => n case None => LastBid(ps[..i])
  {
    assert ps[..i + 1][..i] == ps[..i];
  }

  /** The script's loop over a card's paragraphs, updating `ofertas` in place. */
  method CountBids(ps: seq<Paragraph>) returns (ofertas: nat)
    ensures ofertas == LastBid(ps)
  {
    ofertas := 0;
    var i := 0;
    while i < |ps|
      invariant 0 <= i <= |ps|
      invariant ofertas == LastBid(ps[..i])
    {
      var p := ps[i];
      if Contains(p.text, BidLabel) {
        if p.bold.Some? {
          var digits := DigitsOnly(p.bold.value);
          if digits != [] {
            ofertas := DecimalValue(digits);
          }
        }
      }
      LastBidStep(ps, i);
      i := i + 1;
    }
    assert ps[..|ps|] == ps;
  }

  /** The article the script builds from one card. */
  function CardToArticle(card: Card): (a: Article)
    ensures a.lote == if |card.body2| > 0 then Trim(card.body2[0]) else NotAvailable
    ensures a.descripcion == if |card.body2| > 1 then Trim(card.body2[1]) else NotAvailable
    ensures card.body1.None? ==> a.precio == NotAvailable
    ensures card.body1.Some? ==> a.precio == Trim(card.body1.value)
    ensures a.ofertas == LastBid(card.paragraphs)
    ensures card.image.None? ==> a.imagen == NotAvailable
    ensures card.image.Some? ==> a.imagen == card.image.value
    ensures card.anchor.None? ==> a.enlace == NotAvailable
    ensures card.anchor.Some? ==> a.enlace == card.anchor.value
  {
    Article(
      if |card.body2| > 0 then Trim(card.body2[0]) else NotAvailable,
      if |card.body2| > 1 then Trim(card.body2[1]) else NotAvailable,
      match card.body1 case Some(t) => Trim(t) case None => NotAvailable,
      LastBid(card.paragraphs),
      card.image.GetOr(NotAvailable),
      card.anchor.GetOr(NotAvailable))
  }

  /**
   * The three text fields of an article are already trimmed: a second
   * `trim()` would not change them, whether they come from the card or are
   * the placeholder.
   */
  lemma ArticleTextsTrimmed(card: Card)
    ensures var a := CardToArticle(card);
      Trim(a.lote) == a.lote && Trim(a.descripcion) == a.descripcion && Trim(a.precio) == a.precio
  {
    TrimNotAvailable();
    if |card.body2| > 0 {
      TrimIdempotent(card.body2[0]);
    }
    if |card.body2| > 1 {
      TrimIdempotent(card.body2[1]);
    }
    if card.body1.Some? {
      TrimIdempotent(card.body1.value);
    }
  }

  /** The body of the script's per-card callback. */
  method ExtractArticle(item: Card) returns (a: Article)
    ensures a == CardToArticle(item)
  {
    var lote := if |item.body2| > 0 then Trim(item.body2[0]) else NotAvailable;
    var descripcion := if |item.body2| > 1 then Trim(item.body2[1]) else NotAvailable;
    var precio := if item.body1.Some? then Trim(item.body1.value) else NotAvailable;
    var ofertas := CountBids(item.paragraphs);
    var imagen := if item.image.Some? then item.image.value else NotAvailable;
    var enlace := if item.anchor.Some? then item.anchor.value else NotAvailable;
    a := Article(lote, descripcion, precio, ofertas, imagen, enlace);
  }

  /** The articles of a sequence of cards, one per card in the same order. */
  function ArticlesOf(cards: seq<Card>): (r: seq<Article>)
    ensures |r| == |cards|
  {
    if cards == [] then [] else ArticlesOf(cards[..|cards| - 1]) + [CardToArticle(cards[|cards| - 1])]
  }

  /** Article `i` comes from card `i`. */
  lemma {:induction false} ArticlesOfAt(cards: seq<Card>, i: nat)
    requires i < |cards|
    ensures ArticlesOf(cards)[i] == CardToArticle(cards[i])
  {
    if i < |cards| - 1 {
      ArticlesOfAt(cards[..|cards| - 1], i);
    }
  }

  lemma ArticlesOfPrefix(cards: seq<Card>, i: nat)
    requires i < |cards|
    ensures ArticlesOf(cards[..i + 1]) == ArticlesOf(cards[..i]) + [CardToArticle(cards[i])]
  {
    assert cards[..i + 1][..i] == cards[..i];
  }

  /**
   * The script's loop over the cards: one article per card, in page order.
   * Lot, description and price are the trimmed texts or "N/A"; image and link
   * are taken as they are or "N/A"; the bid count follows the paragraph rule.
   */
  method ExtractArticles(cards: seq<Card>) returns (data: seq<Article>)
    ensures data == ArticlesOf(cards)
  {
    data := [];
    var i := 0;
    while i < |cards|
      invariant 0 <= i <= |cards|
      invariant data == ArticlesOf(cards[..i])
    {
      var a := ExtractArticle(cards[i]);
      ArticlesOfPrefix(cards, i);
      data := data + [a];
      i := i + 1;
    }
    assert cards[..|cards|] == cards;
  }

  function Tag(a: Article, subastaId: string): Record {
    Record(a.lote, a.descripcion, a.precio, a.ofertas, a.imagen, a.enlace, subastaId)
  }

  function Untag(r: Record): Article {
    Article(r.lote, r.descripcion, r.precio, r.ofertas, r.imagen, r.enlace)
  }

  /** The comprehension that appends the auction id to every article. */
  function TagAll(articles: seq<Article>, subastaId: string): (r: seq<Record>)
    ensures |r| == |articles|
    ensures forall i :: 0 <= i < |r| ==> r[i].subastaId == subastaId && Untag(r[i]) == articles[i]
  {
    seq(|articles|, i requires 0 <= i < |articles| => Tag(articles[i], subastaId))
  }

  function UntagAll(records: seq<Record>): seq<Article> {
    seq(|records|, i requires 0 <= i < |records| => Untag(records[i]))
  }

  /** Tagging loses nothing: dropping the id again gives back the articles, in order. */
  lemma UntagAllTagAll(articles: seq<Article>, subastaId: string)
    ensures UntagAll(TagAll(articles, subastaId)) == articles
  {
  }
}
