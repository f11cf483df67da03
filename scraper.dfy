/**
 * The scraper's driver: `scrape_subastas` turns the cards of one auction
 * page into tagged records, and `run_scraper` stores them when there are any.
 * Loading the page, waiting for it and scrolling it are browser work and not
 * part of this model: the cards arrive as a parameter.
 */
module Scraper {
  import opened Wrappers
  import opened Cards
  import opened AuctionId
  import opened Reconcile

  /** The records a page with these cards yields. */
  function ScrapedRecords(auctionUrl: string, cards: seq<Card>): seq<Record> {
    TagAll(ArticlesOf(cards), ParseAuctionId(auctionUrl))
  }

  /**
   * `scrape_subastas` after the page has settled: one record per card, in
   * page order, each carrying the card's article and the auction id parsed
   * from the page's address.
   */
  method ScrapeSubastas(auctionUrl: string, cards: seq<Card>) returns (articulos: seq<Record>)
    ensures articulos == ScrapedRecords(auctionUrl, cards)
    ensures |articulos| == |cards|
    ensures forall i :: 0 <= i < |cards| ==>
      articulos[i].subastaId == ParseAuctionId(auctionUrl) && Untag(articulos[i]) == CardToArticle(cards[i])
  {
    var subastaId := ParseAuctionId(auctionUrl);
    var data := ExtractArticles(cards);
    articulos := TagAll(data, subastaId);
    forall i | 0 <= i < |cards|
      ensures Untag(articulos[i]) == CardToArticle(cards[i])
    {
      ArticlesOfAt(cards, i);
    }
  }

  /**
   * `run_scraper`: scrape the configured auction and, unless the page had no
   * cards, run one pass of `update_database`.  `None` stands for the "no
   * articles" branch, which touches nothing.
   */
  method RunScraper(db: Store, cards: seq<Card>, now: nat) returns (outcome: Option<Outcome>)
    modifies db
    ensures cards == [] ==> outcome == None && db.Contents() == old(db.Contents())
    ensures cards != [] ==>
      var res := Run(Snapshot(old(db.subastas)), old(db.Contents()), ScrapedRecords(ScrapeUrl, cards), now);
      && outcome == Some(if res.Ok? then Committed else RolledBack(res.error))
      && db.Contents() == (if res.Ok? then res.value else old(db.Contents()))
  {
    var articulos := ScrapeSubastas(ScrapeUrl, cards);
    if |articulos| > 0 {
      var o := db.UpdateDatabase(articulos, now);
      outcome := Some(o);
    } else {
      outcome := None;
    }
  }
}
