# subasta — a Dafny model of the auction scraper's core

The system watches one online auction of bavastronline.com.uy. A scraper
(`scraper.py`) loads the auction page, reads one card per lot, and stores
the lots in two PostgreSQL tables. `subastas` holds one row per lot link
(`enlace`, UNIQUE). `historial_subastas` is an append-only log of the
changes seen between runs. A Streamlit dashboard (`dashboard.py`) reads both
tables back and turns the price text of every row into a number.

This project models the part of that system that decides what gets stored:

- `AuctionId` — `parse_auction_id`. It is the leftmost match of
  `auctions/(\d+)` in the page address, or "N/A" when there is none.
- `Text` — JavaScript's `String.prototype.trim`, over the white-space and
  line-terminator code points that ECMAScript names.
- `Cards` — the JavaScript run in the page. It turns each card into
  `[lote, descripcion, precio, ofertas, imagen, enlace]`, with "N/A" for a
  missing element. The bid count comes from the `<b>` of every paragraph
  that mentions "Ofertas:". The module also models the comprehension that
  adds the auction id to every article.
- `Reconcile` — `update_database`. It does one transaction-wide pass over
  the scraped records against a copy of `subastas` frozen before the loop,
  then commits. `Store` is the database: a class whose two fields are the
  tables.
- `Scraper` — `scrape_subastas` and `run_scraper`. The page's cards come in
  as a parameter.
- `Digits`, `Dashboard` — the dashboard's price conversion
  `int(re.sub("[^0-9]", "", x)) if isinstance(x, str) else None`. A text with
  no digit makes Python's `int("")` raise `ValueError`. That error is part of
  the model.

Two parameters stand for the world outside the program. The wall clock is
`now`: PostgreSQL's `CURRENT_TIMESTAMP` is fixed at the start of the
transaction, so all writes of one pass share a stamp. The browser's page
content is a sequence of `Card` values.

### Behaviour modelled as the code has it

These points follow `scraper.py` even where a reader would expect otherwise:

- When a card has several "Ofertas:" paragraphs, the **last** one with a
  parsable number wins. The `forEach` keeps overwriting `ofertas`.
- Inserting a new link writes **no** history row. Only a changed, already
  known link is logged.
- An update overwrites only `precio`, `ofertas`, `subasta_id` and the
  timestamp. `lote`, `descripcion` and `imagen` keep their stored values, even
  though the history row records the new ones.
- The change test reads the frozen copy, not the live table. So a link that
  appears twice in one pass and was already stored is compared twice against
  its old values. Each differing occurrence is updated and logged. A later
  occurrence that matches the old values is skipped, so it does not undo an
  earlier change: for a stored "$100" and the records "$200" then "$100",
  the row ends at "$200". The last occurrence does not win, and the
  guarantee that every record's values land in the table needs distinct
  links.
- A link that is new to the table and appears twice in one pass is inserted
  twice. The second INSERT violates the UNIQUE constraint, the exception
  escapes before `conn.commit()`, and the whole pass is lost. Links are not
  deduplicated, and "N/A" links from cards without an anchor are not filtered
  out.
- A price text without digits makes the dashboard conversion fail with
  `ValueError`. It does not produce "no price".

## Model

| member | source | states |
|---|---|---|
| `AuctionId.DigitRun` | scraper.py:38 | the result is the longest all-digit prefix of its input, which is what the greedy `\d+` group captures |
| `AuctionId.FindMatch` | scraper.py:38 | `re.search`'s scan: the result is a match position at or after `from` with no match before it, or none when nothing matches from `from` on |
| `AuctionId.ParseAuctionId` | scraper.py:36-39 | the result is "N/A" exactly when `auctions/` followed by a digit occurs nowhere in the URL; otherwise it is a non-empty string of digits |
| `AuctionId.ParseAuctionIdLeftmost` | scraper.py:38-39 | when the leftmost match starts at `i`, the id is the text right after `auctions/` at `i` and extends to the end of its digit run |
| `AuctionId.ScrapeUrlAuctionId` | scraper.py:16 | the configured auction address yields the id "2153" |
| `Text.Trim` | scraper.py:75 | the result is no longer than the input and neither starts nor ends with a trimmable character |
| `Text.TrimIsSlice` | scraper.py:75 | trimming keeps one contiguous slice of the input |
| `Text.TrimDropsOnlyTrimmable` | scraper.py:75 | every character trimming removes is white space or a line terminator |
| `Text.TrimIdempotent` | scraper.py:75 | trimming a trimmed text changes nothing |
| `Digits.DigitsOnly` | dashboard.py:91 | `re.sub("[^0-9]", "", x)`: the result has only digits, is empty exactly when the input has none, and leaves an all-digit input unchanged |
| `Digits.DigitsOnlyAppend` | scraper.py:89 | deleting non-digits distributes over concatenation, so each digit keeps its place and order |
| `Digits.DecimalValue` | dashboard.py:91 | Python `int` (and JavaScript `parseInt`, scraper.py:89) on a digit string: the value is 0 exactly when every digit is '0'; `DecimalValueOfToDecimal` and `ToDecimalOfDecimalValue` pin it as the inverse of `ToDecimal` |
| `Digits.ToDecimal` | dashboard.py:91 | Python `str` of a natural (no 4300-digit limit, see Left out): a canonical numeral (non-empty, digits only, no leading zero), and "0" exactly for 0 |
| `Digits.DecimalValueLeadingZero` | dashboard.py:91 | a leading '0' does not change the value that `int` reads |
| `Digits.DecimalValueOfToDecimal` | dashboard.py:91 | reading back the canonical decimal text of `n` gives `n` |
| `Digits.ToDecimalOfDecimalValue` | dashboard.py:91 | a canonical digit string (no leading zero) is the decimal text of its own value |
| `Cards.BidOf` | scraper.py:86-90 | a paragraph gives a bid count exactly when its text contains "Ofertas:", it has a `<b>`, and the `<b>` text has a digit (otherwise `parseInt` yields NaN); the count is the decimal value of the `<b>` text's digits, in order |
| `Cards.LastBid` | scraper.py:83-93 | no contract of its own: the value `ofertas` holds after the `forEach`, characterised by `LastBidWithoutLabel`, `LastBidLastMatchWins` and `LastBidFromSomeParagraph` |
| `Cards.LastBidFromSomeParagraph` | scraper.py:83-93 | the count is 0 or the count of one of the card's paragraphs |
| `Cards.LastBidWithoutLabel` | scraper.py:83-93 | a card with no paragraph that gives a bid count has 0 bids |
| `Cards.LastBidLastMatchWins` | scraper.py:85-91 | the bid count is the count of the last paragraph that gives one |
| `Cards.CountBids` | scraper.py:83-93 | the `forEach` over the paragraphs computes the last-match bid count |
| `Cards.CardToArticle` | scraper.py:74-101 | field by field: `lote` and `descripcion` are the trimmed first and second `body2` texts, `precio` the trimmed `body1` text, each "N/A" when missing; `ofertas` is the last-match bid count; `imagen` and `enlace` are the `src` and `href` untrimmed, or "N/A" |
| `Cards.ArticleTextsTrimmed` | scraper.py:75-81 | the three text fields of an article are fixed points of `trim()`, placeholder included |
| `Cards.ExtractArticle` | scraper.py:74-101 | one card gives the trimmed first and second `body2` texts, the trimmed `body1` text, the bid count, the image `src` and the anchor `href`, each "N/A" when its element is missing |
| `Cards.ArticlesOf` | scraper.py:70-104 | one article per card |
| `Cards.ArticlesOfAt` | scraper.py:73-102 | article `i` is made from card `i` alone, in page order |
| `Cards.ExtractArticles` | scraper.py:70-104 | the `forEach` over the cards returns exactly the articles of the cards, in order |
| `Cards.TagAll` | scraper.py:107 | one record per article, each carrying the auction id and otherwise equal to its article |
| `Cards.UntagAllTagAll` | scraper.py:107 | dropping the id from the tagged records gives back the articles |
| `Scraper.ScrapeSubastas` | scraper.py:56-110 | the records are the card articles in page order, each tagged with the id parsed from the auction address |
| `Scraper.RunScraper` | scraper.py:178-185 | no cards leaves the database untouched; otherwise the outcome and the new tables are those of one reconciliation pass over the scraped records |
| `Reconcile.Snapshot` | scraper.py:150-151 | the dictionary `existing` has exactly the stored links as keys, each with its row's `precio` and `ofertas` |
| `Reconcile.Run` | scraper.py:153-172 | the loop over all records, stopping at the first failing statement; a failure names the link of a record that the frozen copy lacks. `RunHistory`, `RunFailsIffConflict`, `RunFrame`, `RunLanded` and `RunNoWrites` characterise it |
| `Reconcile.HistoryFor` | scraper.py:154-165 | no contract of its own: the history rows of a pass, characterised by `HistoryForEntries` and `RunHistory` |
| `Reconcile.HistoryForEntries` | scraper.py:154-165 | a pass logs at most one row per record; each row is one of the records, stamped `now`, whose stored link changed against the frozen copy |
| `Reconcile.Step` | scraper.py:153-170 | per record: unchanged known link → nothing; changed known link → `precio`, `ofertas`, `subasta_id` and stamp overwritten, other columns and rows kept, the record appended to history; new link not in the table → inserted with stamp `now` and no history; new link already in the table → UNIQUE violation |
| `Reconcile.StepHistory` | scraper.py:162-165 | one record adds at most itself to the history, and only when its known link changed |
| `Reconcile.RunHistory` | scraper.py:153-170 | a successful pass appends exactly the changed known records, in order, to the old history; the set of links only grows |
| `Reconcile.RunFailsIffConflict` | scraper.py:166-172 | the pass fails exactly when some record inserts a link that is new to the frozen copy and is already in the table or in an earlier record of the pass (for bid counts within 32 bits, see Left out) |
| `Reconcile.RepeatedNewLinkFails` | scraper.py:129 | a link that is not stored and appears twice in one pass makes the pass fail |
| `Reconcile.RunFrame` | scraper.py:153-170 | a pass leaves every row whose link none of its records names exactly as it was |
| `Reconcile.RunLanded` | scraper.py:153-170 | after a successful pass with distinct links, whose known links still matched the frozen copy at the start, every record's link is stored with the record's price and bid count |
| `Reconcile.FrozenCopyKeepsEarlierChange` | scraper.py:154-160 | a stored link met twice, first with new values and then with the copy's values, keeps the first record's price and bid count and gets exactly one history row |
| `Reconcile.RunNoWrites` | scraper.py:154-155 | records that all match the frozen copy leave both tables unchanged |
| `Reconcile.RunTwiceWritesNothing` | scraper.py:150-172 | a pass with distinct links commits, and repeating it against the tables it produced writes nothing, whatever the clock says |
| `Reconcile.TwoPassScenario` | scraper.py:153-170 | a first pass inserts two lots with no history; a second pass where only one lot's bid count moved logs that one lot and overwrites only its count and stamp |
| `Reconcile.Store.constructor` | scraper.py:121-148 | freshly created tables are empty |
| `Reconcile.Store.UpdateDatabase` | scraper.py:115-173 | the loop commits exactly the tables of one reconciliation pass, or rolls everything back on a UNIQUE violation; history only grows and stored links are never removed |
| `Dashboard.PrecioNum` | dashboard.py:91 | a missing price gives no number; a price text gives a number exactly when it holds a digit, and `ValueError` otherwise (digit runs of any length; Python's 4300-digit limit is listed under Left out) |
| `Dashboard.PrecioNumIgnoresNonDigit` | dashboard.py:91 | inserting a non-digit anywhere in a price text does not change its number |
| `Dashboard.PrecioNumAppendDigit` | dashboard.py:91 | appending digit `d` gives ten times the earlier number plus `d` |
| `Dashboard.PrecioNumLeadingZero` | dashboard.py:91 | a leading '0' does not change the number |
| `Dashboard.PrecioNumOfDecimal` | dashboard.py:91 | the decimal text of `n` converts to `n` |
| `Dashboard.PrecioNumRoundTrip` | dashboard.py:91 | a canonical digit string converts to a number whose decimal text is that string |
| `Dashboard.PrecioNumDollars` | dashboard.py:91 | "$1,234" converts to 1234 |
| `Dashboard.PrecioNumLeadingZeros` | dashboard.py:91 | "U$S 0050" converts to 50 |
| `Dashboard.PrecioNumWithoutDigits` | dashboard.py:91 | "N/A" and "" raise `ValueError`; a missing price gives no number |
| `Dashboard.BidOfAgreesWithPrecioNum` | scraper.py:86-90 | for a labelled paragraph with a `<b>`, the page script gives a bid count exactly when the dashboard's conversion accepts the `<b>` text, and both read the same number |
| `Dashboard.PrecioColumn` | dashboard.py:105 | `apply` over a column succeeds exactly when every cell converts, and then gives each cell's number in place |

## Left out

- Browser work: driver set-up, page loading, `WebDriverWait`, `scroll_down`, `driver.quit()` and the DOM queries. The cards a page shows are a parameter.
- `ParseAuctionId`: the model's `\d` matches ASCII digits only, while Python's `\d` on `str` also matches other Unicode decimal digits.
- `CountBids`: bid counts are unbounded naturals. JavaScript's `parseInt` loses precision past 2^53 and gives `Infinity` on very long digit runs, and the `INTEGER` column holds 32 bits. Neither limit is modelled.
- `RunFailsIffConflict`: holds only for bid counts that fit the 32-bit `INTEGER` column. A count above 2147483647 makes the UPDATE (scraper.py:156-160) or the INSERT (scraper.py:167-170) raise "integer out of range", and the pass then rolls back just as on a UNIQUE violation. `Step`, `Run` and `Store.UpdateDatabase` never fail for that reason.
- `PrecioNum`: reads digit runs of any length. Python 3.11 and later, and the 3.7–3.10 security releases, refuse to convert a decimal string of more than 4300 digits: `int()` raises `ValueError`, which aborts `load_data` or `load_historial`. The model instead returns a number for such a price text. So its "`ValueError` exactly when the text has no digit" clause, `PrecioColumn`'s success condition and `BidOfAgreesWithPrecioNum` hold only for digit runs of at most 4300 characters.
- `ToDecimal`: renders naturals of any size. Python's `str()` of an integer with more than 4300 digits raises `ValueError` under the same limit, so the round-trip lemmas `DecimalValueOfToDecimal`, `ToDecimalOfDecimalValue`, `PrecioNumOfDecimal` and `PrecioNumRoundTrip` describe Python only below it.
- Database access: the SQL text, `CREATE TABLE IF NOT EXISTS`, the connection and its failures, concurrent writers, and the serial `id` columns. History order is the order of the sequence. The tables are assumed to exist already: a failed first pass would also roll back their creation, and that is not modelled.
- The clock: `CURRENT_TIMESTAMP` is the parameter `now`, one value per pass.
- The `DATABASE_URL` check, the console messages and the process exit.
- Dashboard: Streamlit, caching, database reads, timestamp parsing, the clustering view, and the history filter and sort. pandas stores a column that mixes integers and `None` as floats with NaN; `PrecioColumn` keeps exact naturals and `None`.
