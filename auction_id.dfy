/**
 * The auction identifier of a listing page: the digits captured by the first
 * match of the regular expression `auctions/(\d+)` in the page's address, or
 * "N/A" when the address has no such match.
 */
module AuctionId {
  import opened Wrappers
  import opened Digits
  import opened Text

  /** The literal part of the pattern. */
  const Marker: string := "auctions/"

  /** The address the scraper is configured to read. */
  const ScrapeUrl: string := "https://www.bavastronline.com.uy/auctions/2153"

  /** The pattern `auctions/\d+` can start at index `i` of `url`. */
  predicate MatchAt(url: string, i: nat) {
    OccursAt(url, Marker, i) && i + |Marker| < |url| && IsDigit(url[i + |Marker|])
  }

  /** The longest prefix of `s` made of digits: what a greedy `\d+` consumes. */
  function DigitRun(s: string): (r: string)
    ensures |r| <= |s| && r == s[..|r|] && AllDigits(r)
    ensures |r| == |s| || !IsDigit(s[|r|])
  {
    if s != [] && IsDigit(s[0]) then [s[0]] + DigitRun(s[1..]) else []
  }

  /** The leftmost index at or after `from` where the pattern matches: `re.search`'s scan. */
  function FindMatch(url: string, from: nat): (r: Option<nat>)
    ensures r.Some? ==> from <= r.value && MatchAt(url, r.value)
    ensures r.Some? ==> forall j: nat :: from <= j < r.value ==> !MatchAt(url, j)
    ensures r.None? ==> forall j: nat :: from <= j ==> !MatchAt(url, j)
    decreases |url| - from
  {
    if |url| <= from + |Marker| then None
    else if MatchAt(url, from) then Some(from)
    else FindMatch(url, from + 1)
  }

  /**
   * `parse_auction_id`: either "N/A", exactly when the pattern matches
   * nowhere, or a non-empty run of digits.
   */
  function ParseAuctionId(url: string): (r: string)
    ensures r == NotAvailable || (|r| > 0 && AllDigits(r))
    ensures r == NotAvailable <==> forall i: nat :: !MatchAt(url, i)
  {
    match FindMatch(url, 0)
    case None => NotAvailable
    case Some(i) =>
      assert IsDigit(url[i + |Marker|]);
      DigitRun(url[i + |Marker|..])
  }

  /**
   * When the leftmost match of the pattern starts at `i`, the identifier is
   * the maximal run of digits right after "auctions/".
   */
  lemma ParseAuctionIdLeftmost(url: string, i: nat)
    requires MatchAt(url, i)
    requires forall j: nat :: j < i ==> !MatchAt(url, j)
    ensures var r, start := ParseAuctionId(url), i + |Marker|;
      && start + |r| <= |url|
      && r == url[start..start + |r|]
      && (start + |r| == |url| || !IsDigit(url[start + |r|]))
  {
    assert FindMatch(url, 0) == Some(i);
  }

  /** The configured address, cut around the two 'a's of its host name. */
  lemma ScrapeUrlParts()
    ensures ScrapeUrl == "https://www.b" + "avas" + "tronline.com.uy/" + "auctions/" + "2153"
  {
  }

  /** Before index 33 the configured address never has an 'a' followed by a 'u'. */
  lemma ScrapeUrlHostHasNoAu(j: nat)
    requires j < 33
    ensures ScrapeUrl[j] != 'a' || ScrapeUrl[j + 1] != 'u'
  {
    var p1, p2, p3 := "https://www.b", "avas", "tronline.com.uy/";
    ScrapeUrlParts();
    if j < 13 {
      assert ScrapeUrl[j] == p1[j] && ScrapeUrl[j] in p1;
    } else if 17 <= j {
      assert ScrapeUrl[j] == p3[j - 17] && ScrapeUrl[j] in p3;
    }
  }

  /** An occurrence of `pat` begins with the first two characters of `pat`. */
  lemma OccursAtStartsWith(s: string, pat: string, i: nat)
    requires |pat| >= 2
    ensures OccursAt(s, pat, i) ==> s[i] == pat[0] && s[i + 1] == pat[1]
  {
    if i + |pat| <= |s| {
      assert s[i..i + |pat|][0] == s[i] && s[i..i + |pat|][1] == s[i + 1];
    }
  }

  /** In the configured address the pattern first matches at index 33. */
  lemma ScrapeUrlFirstMatch()
    ensures MatchAt(ScrapeUrl, 33)
    ensures forall j: nat :: j < 33 ==> !MatchAt(ScrapeUrl, j)
  {
    ScrapeUrlMatchAt33();
    forall j: nat | j < 33
      ensures !MatchAt(ScrapeUrl, j)
    {
      ScrapeUrlHostHasNoAu(j);
      OccursAtStartsWith(ScrapeUrl, Marker, j);
    }
  }

  /** "auctions/" followed by a digit starts at index 33 of the configured address. */
  lemma ScrapeUrlMatchAt33()
    ensures MatchAt(ScrapeUrl, 33)
  {
    ScrapeUrlParts();
    assert ScrapeUrl[33..42] == Marker;
  }

  /** The identifier of the configured auction is all digits. */
  lemma AuctionNumberIsDigits()
    ensures AllDigits("2153")
  {
    forall i | 0 <= i < 4
      ensures IsDigit("2153"[i])
    {
      assert i == 0 || i == 1 || i == 2 || i == 3;
    }
  }

  /** The configured auction page yields the identifier "2153". */
  lemma ScrapeUrlAuctionId()
    ensures ParseAuctionId(ScrapeUrl) == "2153"
  {
    ScrapeUrlFirstMatch();
    ParseAuctionIdLeftmost(ScrapeUrl, 33);
    ScrapeUrlParts();
    assert ScrapeUrl[42..] == "2153";
    AuctionNumberIsDigits();
  }
}
