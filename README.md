# Yelp business scraper — a Dafny model

`scraper.py` reads a file of Yelp business links. It visits each distinct link
once in a browser and extracts the business's details into a dict: name,
category, claimed and closed status, opening hours, photos, services,
description, rating, address, website and phone number. Each record is
appended to `business_info.csv` as soon as it is extracted. After the browser
quits, every record is appended once more. A second routine, `page_navigation`,
walks search result pages and collects the listing links. The script itself
never calls it.

This project models that logic with the browser abstracted away:

- A business page is a `Business.Page`: one optional value per lookup, `None`
  where the lookup raises.
- A search session is a `Navigation.Session`: the pages the "Next Page" clicks
  reach.
- The browser as a whole is a function `site` from a link to the page it loads.
- The CSV file is a `Csv.CsvFile` object: whether it exists, and the rows it holds.

Modules:

- `Text`: the Python string operations the scraper uses (`in`, `split`,
  `replace`, `strip`), written out, plus `find`, which `split` is built on, and
  `join`, which states `split`'s round trip in `JoinSplit`.
- `Seqs`: flattening and first-match search (`next(...)`).
- `Address`: the "Main Floor" street / unit / city-line splitter.
- `Redirect`: finding the `/biz_redir?url=` link and decoding the website from it.
- `BusinessHours`: the hours table, including `dict(zip(days, hours))`.
- `Business`: the record `extract_business_info` builds.
- `Navigation`: `page_navigation`.
- `Csv`: `save_to_csv`.
- `Batch`: the main loop (dedup through `visited_links`), followed by the final save.

## Model

| member | source | states |
|---|---|---|
| Text.Find | scraper.py:207 | `Some` iff the substring occurs. The index is an occurrence with no earlier one. |
| Text.FindIs | scraper.py:207 | An occurrence with no earlier one is the index `Find` returns. |
| Text.Split | scraper.py:207 | `split` yields at least one part. It yields two or more iff the separator occurs, so `[1]` exists exactly then. |
| Text.JoinSplit | scraper.py:207 | Joining the parts of `split` with the separator gives back the original string. |
| Text.SplitPartsAvoidSep | scraper.py:207 | No part of `split` contains the separator. |
| Text.ReplaceAbsent | scraper.py:208 | `replace` leaves a string without the pattern unchanged. |
| Text.ReplaceEliminates | scraper.py:208 | Replacing a pattern by a character outside it leaves no occurrence of the pattern. |
| Text.ReplacePreservesAbsence | scraper.py:208 | Replacing by a character outside `q` creates no new occurrence of `q`. |
| Text.ReplaceSplice | scraper.py:208 | For a three-character pattern, a three-character piece that no occurrence of the pattern can start in or reach into splits `replace`: each side is replaced on its own and the piece is kept. |
| Text.Contains | scraper.py:181 | Definition, no contract of its own; its properties are `Find` (`Some` iff `Contains`) and `Split`. |
| Text.Replace | scraper.py:208 | Definition, no contract of its own; its properties are `ReplaceAbsent`, `ReplaceEliminates`, `ReplacePreservesAbsence` and `ReplaceSplice`. |
| Text.IsSpace | scraper.py:112 | Definition, no contract of its own; its properties are `TrimStartSpec`, `TrimEndSpec` and `StripSpec`. |
| Text.Strip | scraper.py:112 | Definition, no contract of its own; its properties are `StripSpec`, `StripUnpadded` and `StripIdempotent`. |
| Text.TrimStartSpec | scraper.py:112 | The leading part `strip` drops is the longest all-space prefix. |
| Text.TrimEndSpec | scraper.py:112 | The trailing part `strip` drops is the longest all-space suffix. |
| Text.StripSpec | scraper.py:112 | `strip(s)` is an infix of `s`. Only spaces are dropped, and no space is left at either end. |
| Text.StripUnpadded | scraper.py:112 | A string with no space at either end is its own strip. |
| Text.StripIdempotent | scraper.py:112 | Stripping twice equals stripping once. |
| Text.StripAll | scraper.py:257 | Stripping every line keeps one entry per line. |
| Seqs.FirstWhere | scraper.py:181 | `next(...)` returns the first index whose element satisfies the test. No earlier element does. |
| Seqs.Concat | scraper.py:142-143 | Definition, no contract of its own; its properties are `ConcatAppend`, `ConcatLength` and `CollectHours`. |
| Seqs.ConcatAppend | scraper.py:142-143 | Flattening distributes over concatenation. |
| Seqs.ConcatLength | scraper.py:142-143 | The `extend` loop keeps every element: the length is the sum of the inner lengths. |
| Address.HasMarker | scraper.py:181 | Definition, no contract of its own; its properties are `FirstMarker`, `AddressWithMarker`, `AddressWithoutMarker` and `AddressAllOrNothing`. |
| Address.FirstMarker | scraper.py:181 | Returns the first paragraph containing "Main Floor". None before it contains the marker. |
| Address.SplitAddress | scraper.py:177-191 | Street is present iff the city line is. A unit only comes with a street. |
| Address.AddressWithoutMarker | scraper.py:179-187 | With no marker and at least two paragraphs: street is p[0], city line is p[1], unit is `None`. |
| Address.AddressWithMarker | scraper.py:179-184 | With the first marker at `i` and `i+2` in range: street is p[0], unit is p[i+1], city line is p[i+2]. |
| Address.AddressAllOrNothing | scraper.py:177-191 | The fields are `None` exactly when an index is out of range. All three are then `None` together. |
| Address.AddressExampleWithUnit | scraper.py:177-184 | Shows a concrete four-line address with a "Main Floor" line. |
| Address.AddressExampleWithoutUnit | scraper.py:177-187 | Shows a concrete two-line address without a unit. |
| Redirect.IsRedirect | scraper.py:202 | Definition, no contract of its own; its properties are `FirstRedirect`, `Website`, `RedirectHasParam` and `WebsiteUsesFirstRedirect`. |
| Redirect.FirstRedirect | scraper.py:202 | `Some` iff some href is non-empty and holds `/biz_redir?url=`. The result holds it. |
| Redirect.RawParam | scraper.py:207 | `split('url=')[1]` exists iff the href contains `url=`. |
| Redirect.DecodeRedirect | scraper.py:207-208 | The decoding succeeds iff the href contains `url=`. |
| Redirect.Website | scraper.py:202-213 | The website is present iff some href is a redirect link. |
| Redirect.RedirectHasParam | scraper.py:202-207 | Every redirect href contains `url=`. The `[1]` index never raises for one. |
| Redirect.WebsiteUsesFirstRedirect | scraper.py:202-208 | Only the first redirect href in document order is decoded. |
| Redirect.RawParamHasNoAmpersand | scraper.py:207 | The extracted parameter holds no `&`. |
| Redirect.Unescape | scraper.py:208 | Definition, no contract of its own; its properties are `UnescapeResult`, `UnescapeVerbatim`, `UnescapeKeepsLower` and `UnescapeEscape`. |
| Redirect.UnescapeResult | scraper.py:208 | After the two replacements, no `%3A` or `%2F` is left, and no `&` is introduced. |
| Redirect.DecodedWebsiteShape | scraper.py:207-208 | The stored website has no `&` and no upper-case escape of `:` or `/`. |
| Redirect.UnescapeVerbatim | scraper.py:208 | Text without `%3A` or `%2F` is kept as it is. |
| Redirect.UnescapeKeepsLower | scraper.py:208 | A lower-case `%2f` or `%3a` is never decoded, wherever it stands: the text on each side of it is unescaped on its own. |
| Redirect.UnescapeSchemeHost | scraper.py:208 | `scheme%3A%2F%2Fhost` unescapes to `scheme://host` for any plain scheme and host. |
| Redirect.UnescapeMixedExample | scraper.py:208 | Mixed escapes: `https%3A%2F%2Fx.com%2fa` unescapes to `https://x.com%2fa`. |
| Redirect.UnescapeEscape | scraper.py:208 | Unescaping inverts escaping `:` and `/`, for text without `%`. |
| Redirect.DecodeRedirectRoundTrip | scraper.py:202-208 | A redirect href carrying an escaped destination decodes back to the destination. |
| Redirect.DecodeSchemeHost | scraper.py:202-208 | A redirect to `scheme%3A%2F%2Fhost` decodes to `scheme://host`, for any scheme and host without `:`, `/`, `%`, `&` or `=`. |
| Redirect.DecodeRedirectExample | scraper.py:202-208 | `/biz_redir?url=https%3A%2F%2Fexample.com&cta=1` decodes to `https://example.com`. |
| BusinessHours.Zip | scraper.py:144 | `zip` is as long as the shorter list, pairing elements by position. |
| BusinessHours.StripRows | scraper.py:142-143 | Each row's entries are stripped, row by row. |
| BusinessHours.CollectHours | scraper.py:141-143 | The loop returns every row's stripped entries in table order. Its length is the total entry count. |
| BusinessHours.DictOf | scraper.py:144 | Definition, no contract of its own; its properties are `DictOfKeys`, `DictOfSize` and `DictOfLastWins`. |
| BusinessHours.HourTexts | scraper.py:141-143 | Definition, no contract of its own; its properties are `CollectHours` and `HourTextsStartWithFirstRow`. |
| BusinessHours.PairHours | scraper.py:144 | Definition, no contract of its own; its properties are `PairHoursKeys`, `PairHoursSize`, `PairHoursLastWins`, `PairHoursDuplicateOverwrites` and `PairHoursDistinct`. |
| BusinessHours.HoursMap | scraper.py:139-144 | Definition, no contract of its own; its properties are those of `PairHours` and `HoursFollowEntriesNotRows`. |
| BusinessHours.DictOfKeys | scraper.py:144 | `dict(pairs)` has a key iff some pair carries it. |
| BusinessHours.DictOfSize | scraper.py:144 | `dict(pairs)` has at most one entry per pair. |
| BusinessHours.DictOfLastWins | scraper.py:144 | A key maps to the value of its last pair. |
| BusinessHours.PairHoursKeys | scraper.py:144 | A day is a key iff it is among the first `min(len(days), len(hours))` labels. |
| BusinessHours.PairHoursSize | scraper.py:144 | The hours dict has at most `min(len(days), len(hours))` entries. |
| BusinessHours.PairHoursLastWins | scraper.py:144 | A day with no later duplicate maps to the hours at its own position. |
| BusinessHours.PairHoursDuplicateOverwrites | scraper.py:144 | Of two equal day labels, the later one's hours are kept. |
| BusinessHours.PairHoursDistinct | scraper.py:144 | With distinct days and equal lengths, every day keeps its own hours. |
| BusinessHours.HourTextsStartWithFirstRow | scraper.py:141-143 | The hour texts begin with the first row's stripped entries. |
| BusinessHours.HoursFollowEntriesNotRows | scraper.py:139-144 | Days pair with entries, not rows: the second day takes the first row's second entry. |
| Business.Get | scraper.py:242-245 | `info.get(k)` is `None` for a missing key and the stored value otherwise. |
| Business.StrippedOrNull | scraper.py:110-114 | A text field is `None` iff its lookup raised. Otherwise it is the stripped text. |
| Business.StrOrNull | scraper.py:183-191 | An optional string is stored as `None` when absent and as itself when present. |
| Business.PhotosValue | scraper.py:149-153 | `photos` is `None` iff the lookup raised. Otherwise it is a list whose entry `i` is the `src` of image `i`, `None` where it has none. |
| Business.ServicesValue | scraper.py:156-161 | `services_offered` is `None` iff the lookup raised. Otherwise it is a list whose entry `i` is the stripped text of link `i`. |
| Business.HoursValue | scraper.py:137-146 | `hours` is `None` iff the table lookup raised. Otherwise it is `dict(zip(days, hours))` of the stripped day labels and the flattened stripped entries. |
| Business.RatingValue | scraper.py:169-175 | `reviews` is `None` iff the lookup or the float parse raised. Otherwise it is the parsed rating. |
| Business.FieldsOf | scraper.py:110-226 | Definition, no contract of its own; its properties are `FailedLookupNullsOnlyItsField`, `NoRedirectNullsOnlyWebsite`, `FieldNullWhenLookupFails` and `AddressAndWebsiteNull`. |
| Business.ToRecord | scraper.py:108-226 | Definition, no contract of its own; its properties are `RecordKeys` and `RowOfRecord`. |
| Business.RecordOf | scraper.py:108-226 | Definition, no contract of its own; its properties are `ExtractBusinessInfo` and `RecordHasUrl`. |
| Business.ExtractBusinessInfo | scraper.py:94-226 | Writing the fields one `try` block at a time yields exactly the record of url and page. |
| Business.RecordKeys | scraper.py:108-226 | The dict holds exactly the 15 written keys. It never holds `country`. |
| Business.RecordHasUrl | scraper.py:108 | `url` is always stored, whatever fails. |
| Business.FailedLookupNullsOnlyItsField | scraper.py:110-226 | A failing lookup turns only its own field(s) to `None`. A failing address turns all three address fields to `None`. |
| Business.NoRedirectNullsOnlyWebsite | scraper.py:194-217 | Without a redirect link only `website` is `None`. |
| Business.FieldNullWhenLookupFails | scraper.py:110-175 | Name, category, hours, reviews and phone are `None` exactly when their lookups fail. |
| Business.AddressAndWebsiteNull | scraper.py:177-217 | Street and city line are `None` together, and the unit is `None` with them. The website is `None` iff there is no redirect link. |
| Navigation.Clickable | scraper.py:75 | Definition, no contract of its own; its properties are `StopsWhen`. |
| Navigation.Stops | scraper.py:51-87 | Definition, no contract of its own; its properties are `StopsWhen` and `LastPage`. |
| Navigation.Collected | scraper.py:39-92 | Definition, no contract of its own; its properties are `PageNavigation`, `CollectedStep`, `LoadFailedCollectsNothing`, `AllPagesRead`, `LaterPagesIgnored` and `MissingListingStops`. |
| Navigation.LastPage | scraper.py:47-87 | The walk ends on the first page that has a failing listing or no clickable button. |
| Navigation.ReadCount | scraper.py:51-53 | Listings are read up to, not including, the first failing anchor lookup. |
| Navigation.Hrefs | scraper.py:51-53 | A page contributes the hrefs of the listings read before the failure. |
| Navigation.PageHrefs | scraper.py:47-53 | One href list per page. |
| Navigation.ReadListings | scraper.py:51-54 | The inner loop returns those hrefs. It fails iff some anchor lookup fails. |
| Navigation.StopsWhen | scraper.py:51-87 | A page ends the walk iff one of its anchor lookups fails or its button is missing, hidden or disabled. |
| Navigation.PageNavigation | scraper.py:39-92 | The loop returns the hrefs of every page up to and including the last page, in order. |
| Navigation.CollectedStep | scraper.py:47-81 | Visiting one more page appends its hrefs. |
| Navigation.LoadFailedCollectsNothing | scraper.py:42-45 | A start page that fails to load gives no links. |
| Navigation.AllPagesRead | scraper.py:47-87 | If every lookup succeeds and only the final page lacks a clickable button, every listing's href is collected: one per listing. |
| Navigation.LaterPagesIgnored | scraper.py:75-87 | Pages after the stopping page never change the result. |
| Navigation.MissingListingStops | scraper.py:51-53 | A failing anchor lookup ends the walk on that page. Only that page's earlier hrefs are kept, after those of the previous pages. |
| Csv.Columns | scraper.py:240-245 | Definition, no contract of its own; its properties are `RowOf`, `RowOfRecord` and `ColumnsDistinct`. |
| Csv.Header | scraper.py:235-239 | Definition, no contract of its own; its properties are `ColumnsDistinct` and `SaveToCsv`. |
| Csv.RowOf | scraper.py:240-246 | A row has 15 cells, the i-th being `info.get` of the i-th column's key. |
| Csv.RowsOf | scraper.py:240 | One row per record, in order. |
| Csv.CsvFile.SaveToCsv | scraper.py:230-246 | The file exists afterwards. It holds the old rows, then the header if the file was new, then one row per record. |
| Csv.RowOfRecord | scraper.py:235-246 | In the row of any record `extract_business_info` builds, the `Country` cell is always empty. Every other cell holds the record's value under its key. |
| Csv.ColumnsDistinct | scraper.py:235-246 | 15 header names, 15 distinct column keys, and `url` is not a column. |
| Batch.Dedup | scraper.py:264-270 | Definition, no contract of its own; its properties are `DedupStep`, `DedupElements`, `DedupDistinct`, `DedupOrder`, `DedupOfDistinct` and `DedupEmpty`. |
| Batch.Seen | scraper.py:265-270 | Definition, no contract of its own; its properties are `VisitedStep` and `ScrapeLinks`. |
| Batch.SavedOneByOne | scraper.py:264-270 | Definition, no contract of its own; its properties are `SavedStep`, `FinalPass` and `ScrapeLinks`. |
| Batch.FirstIndex | scraper.py:264-265 | The position of a link's first occurrence. |
| Batch.RecordsOf | scraper.py:264-268 | One extracted record per link, in order. |
| Batch.DedupStep | scraper.py:264-265 | A further link is added to the extracted links iff it was not met before. |
| Batch.VisitedStep | scraper.py:265-270 | Reading one more link adds exactly that link to `visited_links`. |
| Batch.RecordsOfAppend | scraper.py:266-268 | Extracting one more link appends its record. |
| Batch.SavedStep | scraper.py:269 | Saving one more record appends its row, after the header only if nothing was saved yet. |
| Batch.ScrapeLinks | scraper.py:264-270 | The visited set is the set of links. The records are those of the distinct links. The file gets the header (if new) and one row per record. |
| Batch.Run | scraper.py:256-275 | After the whole run the file holds the old rows, the header if new, every record's row, then every record's row again. |
| Batch.FinalPass | scraper.py:275 | Saving everything again after saving one by one appends a second copy of every row. |
| Batch.DedupElements | scraper.py:264-270 | A link is extracted iff it appears in the input. |
| Batch.DedupDistinct | scraper.py:264-270 | No link is extracted twice. |
| Batch.FirstIndexInPrefix | scraper.py:264-265 | A link met earlier keeps its first position when the input grows. |
| Batch.DedupOrder | scraper.py:264-270 | Links are extracted in increasing order of their first occurrence. |
| Batch.DedupOfDistinct | scraper.py:264-270 | Distinct input links are all extracted, in input order. |
| Batch.DedupEmpty | scraper.py:264-270 | No record is extracted iff the link file is empty. |
| Batch.RunRowsTwice | scraper.py:268-275 | On a new file `Run` leaves one header and `2n` rows. Record `i`'s row stands at `1+i` and again at `1+n+i`. |

## Left out

- The browser: Selenium lookups, XPath, waits, `sleep` and the JavaScript click. Each lookup's outcome is an input (`Page`, `ResultsPage`, `site`).
- `driver.get` and the `body` wait in `extract_business_info` (scraper.py:105-106) are outside any `try`. A page that fails to load aborts the whole run, and the `finally` lets no final save happen. The model assumes every business page loads.
- `float(reviews_rating)`: the model takes the parsed rating as a `real` and leaves out the text-to-float parsing.
- `strip` removes the ten ASCII characters Python counts as whitespace: space, `\t`, `\n`, `\r`, `\v`, `\f` and `\x1c` to `\x1f`. The non-ASCII whitespace Python also strips (U+0085, U+00A0, U+2000 to U+200A and others) is not modelled, since text is a sequence of characters without Unicode tables.
- The CSV writer's rendering of cells (quoting, `repr` of dicts and lists, `None` as empty). A row is modelled as the values it holds.
- Reading `biz_urls.txt`, `os.path.isfile`, and the file handle. The file is an existence flag plus its rows.
- Logging, `print` and `pprint`. They have no effect on results.
- The `categories` and `locations` tables and the commented-out search loop. `page_navigation` is modelled on its own, as the script never calls it.
- Dict insertion order. A record is a map. The CSV column order is modelled explicitly.
- Exceptions from `find_elements(By.TAG_NAME, 'a')` or `get_attribute('href')` on the website path. The hrefs are always given.
- Navigation.PageNavigation: requires the session to reach a stopping page. The source's `while True` never ends on an endless run of clickable pages.
- Text.Split and Text.Replace: require a non-empty separator or pattern. The scraper only uses non-empty literals, and Python raises on an empty separator.
- Redirect.RawParam: follows the code. `split('url=')[1]` takes the text between the first and second `url=` in the href, and that first `url=` may come before the redirect path.
- Redirect.DecodeRedirectRoundTrip: shown only for destinations without `%`, `&` or `=`. The two replacements are not a general percent-decoder.
- Text.StripAll: states only that one entry is kept per line. Each entry's value is `Strip` of its line, by definition.
