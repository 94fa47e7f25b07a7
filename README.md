# web_screenshotter — a Dafny model of the crawl core

`web_screenshotter.py` takes a web address, collects the links on that page that stay
on the same site, and saves a screenshot of each one under `screenshots/<date>/`. This
project models the logic of that script:

- **`Strings`** (`strings.dfy`) — Python's substring test `sub in s` (`Contains`) and
  `str.replace` for a non-empty pattern (`Replace`). Each comes with a reference
  definition or with algebraic lemmas: occurrence at an index, unchanged input when the
  pattern is absent, preserved clear prefixes, removal of a one-character pattern.
- **`Urls`** (`urls.dfy`) — `fix_url` (`FixUrl`) and the screenshot file name of
  `save_screenshot` (`FileName`): the four chained `replace` calls and the `.png` suffix.
- **`Crawl`** (`crawl.dfy`) — the href filter of `process`:
  - the denylist `exceptions`;
  - the list comprehension (`Candidates`);
  - the same-site substring test.

  The module also holds the crawl state. The two module-level sets `visited` and
  `to_visit` are fields of the class `Frontier`, whose methods model `save_screenshot`,
  `process`, `take_screenshot` and `process_url`. `CrawlSite` runs `process_url` on a
  fresh `Frontier`.
- **`LinkFilter`** (`crawl.dfy`) — consequences of the filter. Denylist entries are
  compared by whole-string equality, so "BASE/app.js" is kept. The same-site test is a
  substring test, so relative links that do not contain the base URL are dropped and foreign URLs that mention the base
  URL are kept.

The page fetch and HTML parsing are not modelled. The hrefs found on the page, in document
order, are a parameter (`hrefs`) of `Process`, `ProcessUrl` and `CrawlSite`. Python's set
iteration order, which fixes the order of `list(to_visit)`, is left open: `Snapshot` picks
elements in an arbitrary order. The proved properties therefore hold for every order.

Two behaviours of the code are easy to misread. The model states both:

- The docstring of `fix_url` says it "ensures url format is valid". Line 82 only checks
  that `http://` or `https://` occurs somewhere in the address, and leaves such an
  address unchanged. `FixUrlNeedNotStartWithScheme` exhibits a result that begins with
  neither scheme.
- The denylist test on line 97 is list membership, that is, whole-string equality with an
  entry. An href such as "BASE/y.js" therefore passes it. `ExtractionScenario` and
  `ExtractionExample` show that of "BASE/x", "BASE/y.js" and a foreign URL, the first two
  are kept.

## Model

| member | source | states |
|---|---|---|
| Strings.Contains | web_screenshotter.py:82 | Python's `sub in s`: true only when `sub` is no longer than `s`; `ContainsIffOccurs` proves it equals "occurs at some index" |
| Strings.ContainsIffOccurs | web_screenshotter.py:99 | the scanning substring test `sub in s` holds exactly when `sub` occurs at some index of `s` |
| Strings.OccursInTail | web_screenshotter.py:99 | when `sub` does not start `s`, it occurs in `s` exactly when it occurs in `s[1..]` |
| Strings.StartsWithContains | web_screenshotter.py:82 | a string that begins with `p` contains `p` |
| Strings.ContainsAppendLeft | web_screenshotter.py:99 | containment survives putting text in front of the string |
| Strings.Replace | web_screenshotter.py:49 | Python's `s.replace(pat, rep)` for non-empty `pat`: never longer than `s` when `rep` is no longer than `pat`, and exactly as long when they have equal length; `ReplaceAbsent`, `ReplaceCharsFrom` and `ReplaceLeading` give its meaning |
| Strings.ReplaceCharsFrom | web_screenshotter.py:49 | every character of `s.replace(pat, rep)` comes from `s` or from `rep` |
| Strings.ReplaceRemovesChar | web_screenshotter.py:49 | replacing a one-character pattern by text without that character leaves none of it |
| Strings.ReplaceAbsent | web_screenshotter.py:49 | where the pattern does not occur, `replace` returns its input |
| Strings.ReplaceSelf | web_screenshotter.py:49 | replacing a pattern by itself changes nothing |
| Strings.ReplaceLeading | web_screenshotter.py:49 | a leading occurrence becomes `rep` and the scan resumes right after it |
| Strings.ReplaceKeepsClearPrefix | web_screenshotter.py:49 | a prefix at none of whose positions the pattern starts is copied unchanged |
| Strings.ReplaceKeepsPrefix | web_screenshotter.py:49 | a prefix without the pattern's first character is copied unchanged |
| Strings.MissingCharNotContained | web_screenshotter.py:99 | a pattern with a character the string lacks does not occur in it |
| Strings.ReplaceMissingChar | web_screenshotter.py:49 | replacing such a pattern changes nothing |
| Strings.ReplaceSkipOne | web_screenshotter.py:49 | a character that does not start an occurrence is kept and the scan moves on |
| Urls.HasScheme | web_screenshotter.py:82 | holds exactly when `http://` or `https://` occurs at some index of the address |
| Urls.FixUrl | web_screenshotter.py:82-84 | the result always contains a scheme; an address with one is returned unchanged; one without is prefixed with `http://` |
| Urls.FixUrlIdempotent | web_screenshotter.py:82-84 | fixing an address twice gives the same as fixing it once |
| Urls.FixUrlChangesIff | web_screenshotter.py:82 | `fix_url` changes its argument if and only if it contains neither `http://` nor `https://` |
| Urls.FixUrlNeedNotStartWithScheme | web_screenshotter.py:82 | a scheme only inside a query string is accepted, so the result need not begin with a scheme |
| Urls.Stem | web_screenshotter.py:49 | the URL after the four chained replacements, never longer than the URL (the scheme and `.html` removals shorten it, the separator swaps keep its length) |
| Urls.FileName | web_screenshotter.py:49 | the name ends in `.png`, what precedes it is the URL after the four replacements, and it is at most four characters longer than the URL |
| Urls.FileNameHasNoSeparators | web_screenshotter.py:49 | no `/` and no `:` remains before the `.png` suffix |
| Urls.FileNameDropsHttp | web_screenshotter.py:49 | a leading `http://` does not change the file name |
| Urls.FileNameKeepsHttps | web_screenshotter.py:49 | a leading `https://` is kept, as `https---` |
| Urls.StemKeepsHttps | web_screenshotter.py:49 | the four replacements turn a leading `https://` into `https---` and treat the rest on its own |
| Urls.HttpsSurvivesSchemeStrip | web_screenshotter.py:49 | stripping `http://` leaves a leading `https://` intact |
| Urls.HttpsSlashes | web_screenshotter.py:49 | the slashes of a leading `https://` become dashes |
| Urls.HttpsColon | web_screenshotter.py:49 | the colon of a leading `https:--` becomes a dash |
| Urls.ColonOnce | web_screenshotter.py:49 | a `:` between two colon-free texts becomes `-`, and the rest is treated on its own |
| Urls.FileNameOfFixUrl | web_screenshotter.py:49 | fixing an address without a scheme does not change its file name |
| Urls.FileNameOfPlainName | web_screenshotter.py:49 | a URL with no `http://`, `/`, `:` or `.html` is named by itself plus `.png` |
| Urls.FileNameOfPage | web_screenshotter.py:49 | for HOST and PAGE without `/`, `:` or `h`, `http://HOST/PAGE.html` is saved as `HOST-PAGE.png` |
| Urls.PageSlash | web_screenshotter.py:49 | the one slash between host and page becomes a dash |
| Urls.SlashOnce | web_screenshotter.py:49 | the one `/` between two slash-free texts becomes `-` |
| Urls.PageHtml | web_screenshotter.py:49 | with no `h` before it, a trailing `.html` is the only occurrence and is removed |
| Urls.NoHtmlStartsIn | web_screenshotter.py:49 | text without an `h` before text not starting with `h` survives the `.html` removal |
| Urls.NoHtmlAt | web_screenshotter.py:49 | no `.html` starts at any position of a text without `h` that is followed by something not starting with `h` |
| Urls.FileNameExample | web_screenshotter.py:49 | `http://example.com/page.html` is saved as `example.com-page.png` |
| Urls.FileNameHttpsExample | web_screenshotter.py:49 | `https://x` is saved as `https---x.png` |
| Urls.FileNameOfHttpsHost | web_screenshotter.py:49 | for HOST without `/`, `:` or `h`, `https://HOST` is saved as `https---HOST.png` |
| Urls.FileNameCollision | web_screenshotter.py:49 | for HOST and PATH neither holding `/` or `:`, the two different URLs `HOST/PATH` and `HOST:PATH` get the same file name |
| Urls.FileNameCanKeepHtml | web_screenshotter.py:49 | the single `.html` removal can join a new `.html`, which stays in the name |
| Urls.HtmlRejoins | web_screenshotter.py:49 | for HOST without `h`, removing `.html` from `HOST.ht.htmlml` leaves `HOST.html` |
| Crawl.Denylist | web_screenshotter.py:94 | the seven hrefs `process` ignores, `.css`, `.js`, `.zip`, `.tar.gz`, `.jar`, `.txt` and `.json`; `SlashedHrefNotDenied` proves none holds a `/` |
| Crawl.SameSite | web_screenshotter.py:99 | `base_url in url`: holds exactly when the base URL occurs at some index of the href |
| Crawl.Accepted | web_screenshotter.py:94-100 | what `process` adds is exactly the hrefs that survive the comprehension of line 97 and then pass the test of line 99 |
| Crawl.Candidates | web_screenshotter.py:94-97 | an href is kept exactly when it is on the page and equals no denylist entry; no more urls than hrefs |
| Crawl.CandidatesAppend | web_screenshotter.py:97 | the comprehension keeps document order: filtering a concatenation filters each part |
| Crawl.Snapshot | web_screenshotter.py:66 | `list(to_visit)` lists every pending URL exactly once |
| Crawl.DrainStep | web_screenshotter.py:66-69 | the next snapshot URL is still pending, and moving it keeps both sets and their disjointness in step |
| Crawl.Frontier.constructor | web_screenshotter.py:30-31 | a run starts with both sets empty and nothing shot |
| Crawl.Frontier.SaveScreenshot | web_screenshotter.py:36-56 | the URL is added to the (proof-only) record of shot URLs, and the file name is `FileName(url)` |
| Crawl.Frontier.Process | web_screenshotter.py:94-100 | `to_visit` grows by exactly the accepted hrefs (not denied, containing the base URL); `visited` is untouched |
| Crawl.Frontier.Visit | web_screenshotter.py:67-69 | the URL is shot, added to `visited` and removed from `to_visit` |
| Crawl.Frontier.DrainSnapshot | web_screenshotter.py:66-69 | afterwards `to_visit` is empty, `visited` has gained what was pending, and the snapshot was shot in order; at every iteration the two sets together are what they were, and if they were disjoint at the start they stay disjoint |
| Crawl.Frontier.TakeScreenshot | web_screenshotter.py:60-69 | `to_visit` ends empty and `visited` has gained everything pending; the record of shots grows by a list holding each pending URL exactly once |
| Crawl.Frontier.ProcessUrl | web_screenshotter.py:109-111 | after discovery, the outer loop runs `take_screenshot` once if anything is pending and never otherwise; everything pending or accepted is visited, and the record of shots grows by a list holding each of those URLs exactly once |
| Crawl.CrawlSite | web_screenshotter.py:125-126 | the `--url` flow: starting from the empty sets of lines 30-31, `process_url` (lines 109-111) screenshots exactly the accepted links, each once |
| LinkFilter.SlashedHrefNotDenied | web_screenshotter.py:94-97 | no denylist entry contains `/`, so an href with a `/` is never denied |
| LinkFilter.SameSitePathKept | web_screenshotter.py:97-100 | BASE followed by a path with a `/` is kept whatever its extension |
| LinkFilter.RelativeHrefDropped | web_screenshotter.py:99 | an href without `:` never passes the same-site test for a base URL with a scheme |
| LinkFilter.ForeignHrefMentioningBaseKept | web_screenshotter.py:99-100 | a foreign URL that mentions the base URL after a `/` is kept |
| LinkFilter.ExtractionScenario | web_screenshotter.py:94-100 | from `BASE/x`, `BASE/y.js` and a foreign URL lacking a character of BASE, exactly the first two are accepted |
| LinkFilter.ExtractionExample | web_screenshotter.py:94-100 | the same outcome for base `http://a.test` |

## Left out

- Fetching the page (`requests.get`) and parsing it (`BeautifulSoup(...).find_all(href=True)`) are left out. The hrefs found, in document order, are the parameter `hrefs`.
- Crawl.Frontier.SaveScreenshot: the browser (`driver.get`, `get_screenshot_as_file`), the date directory (`datetime`, `os.makedirs`, `os.path.join`) and the logging are not modelled. The method only records the URL and returns the bare file name.
- Creating and quitting the Firefox driver in `take_screenshot` is not modelled.
- The exception handlers are not modelled, and the model assumes no exception is raised. `save_screenshot` catches and logs every exception of its own (lines 57-58), and `visited.add` and `to_visit.remove` on elements of the snapshot cannot raise, so no exception from the loop body reaches line 70 of `take_screenshot`. The one that can is a failing `webdriver.Firefox()` (line 65). It is logged at line 71, and then `driver.quit()` in the `finally` block (line 73) raises `UnboundLocalError`, because `driver` was never bound. That error leaves `take_screenshot` and `process_url`, and only the handler at lines 138-139 catches it. The outer `while` is not re-entered and `to_visit` keeps its URLs.
- Crawl.Frontier.ProcessUrl: the final `logging.info` message is not modelled.
- Crawl.Frontier.Process: the two `logger.info` calls of `process` (lines 93 and 95) are not modelled.
- The command-line entry (`argparse`), the `--url`/`--file` modes, and reading a file of addresses line by line are outside the modelled core.
- `fix_url` is modelled, but the script itself never calls it. `process_url` receives the command-line address as given.
- Strings.Replace: Python's `replace` with an empty pattern is not modelled. The source calls `replace` only with non-empty literal patterns.
- Python's set iteration order is not modelled. `Snapshot` may list the pending URLs in any order, and every property is proved for all orders.
