# Panasonic Factory Refresh stock checker — verified model

`check-stock.js` visits the shopping pages of the Panasonic Factory Refresh
store, grouped by category. It decides for each page whether the product is
out of stock (`在庫なし`), in stock (`⭐️️在庫あり⭐️`) or could not be judged
(`取得失敗`). It collects one line per page into a mail body and raises a flag
when anything is in stock. Before anything else it refuses to start unless
the six SMTP/mail settings are present and non-blank.

This project models that logic in Dafny, with the browser replaced by a
snapshot of what it would answer:

- `judgment.dfy` (module `Judgment`): the per-URL judgment `judge`. A page is
  a navigation outcome (no response, a response with its `ok()` flag, or a
  throw) plus what `isVisible()` does for each selector (true, false, or
  throw). The result is a `Verdict`: the label, the diagnostic captures made
  (their tags, in order) and the selectors consulted (in order).
- `artifacts.dfy` (module `Artifacts`): the file-name sanitiser
  `url.replace(/[^a-z0-9]+/gi, '_').slice(0, 90)` and the artifact base
  name `<safe>_<tag>`.
- `run.dfy` (module `Run`): `checkAll`'s nested loops as an imperative
  method. They build the report lines and the `anyInStock` flag and join
  the lines into the body. The method is proved against specification
  functions (`Lines`, `AnyInStock`, `Captures`) whose properties are lemmas.
  `judge` is a parameter of the run. It returns what the run sees of a
  call: the result text, plus the tags of the captures it made on the way.
  `Judged` links it to `Judgment.Judge` on a page snapshot for each URL.
- `environment.dfy` (module `Environment`): `ensureEnv`, the filter of keys
  that are absent or blank after `trim()`, and the error it throws.
- `strings.dfy` (module `Strings`): `join`, `includes`, and the split that
  inverts a one-character join.

The regular expression has the `i` flag but not the `u` flag. Case-insensitive
matching then never maps a non-ASCII character onto an ASCII letter, so the
characters it keeps are exactly the ASCII letters and digits. The replaced
string is pure ASCII, so `slice(0, 90)` over UTF-16 code units and over
characters agree; the model works on characters.

## Model

| member | source | states |
|---|---|---|
| `Judgment.Resolve` | check-stock.js:91-103 | The selectors consulted are a non-empty prefix of the out-of-stock selectors followed by the cart selector, and every one before the last said hidden. The last answer decides: visible on an out-of-stock selector gives out of stock, visible on the cart gives in stock, both with no capture. A throw gives fetch failed with one `exception` capture. Hidden on the cart gives fetch failed with one `unknown` capture. |
| `Judgment.Judge` | check-stock.js:76-104 | A failed navigation yields fetch failed without consulting any selector: `http_error` for no response or a non-ok response, `exception` for a throw. One capture is made exactly when the result is fetch failed, and none otherwise. |
| `Judgment.OutOfStockWins` | check-stock.js:92-94 | If an out-of-stock selector is visible and no earlier probe throws, the result is out of stock whatever the cart shows. Nothing is captured, and no selector after that one is consulted. |
| `Judgment.ConfiguredOutOfStock` | check-stock.js:35-36 | With the configured selectors, a successful page showing `在庫がありません` is out of stock whatever else it shows, and that is the only selector asked. |
| `Judgment.InStockIff` | check-stock.js:92-95 | In stock holds exactly when navigation succeeded, every out-of-stock selector is hidden and the cart button is visible (both directions). |
| `Judgment.UnknownIff` | check-stock.js:96-99 | The `unknown` capture happens exactly when navigation succeeded and every selector, cart included, said hidden. |
| `Judgment.ExceptionIff` | check-stock.js:100-103 | The `exception` capture happens exactly when navigation throws, or when it succeeded and the first probe not answering hidden throws. |
| `Artifacts.CollapseFrom` | check-stock.js:69 | The scanning replacement yields only `[A-Za-z0-9_]` with no two `_` adjacent. It is never longer than its input and keeps the input's letters and digits, in order. |
| `Artifacts.Collapse` | check-stock.js:69 | The replacement is normal, is empty exactly when the URL is empty, and keeps all the URL's letters and digits, in order. |
| `Artifacts.CollapseGap` | check-stock.js:69 | A non-empty run of characters other than ASCII letters and digits becomes exactly one `_`. |
| `Artifacts.CollapseSplit` | check-stock.js:69 | The replacement works piecewise around any letter or digit. With `CollapseGap` this pins the replacement down on every string. |
| `Artifacts.CollapseNormal` | check-stock.js:69 | A string that is already normal is left unchanged by the replacement. |
| `Artifacts.Sanitize` | check-stock.js:69 | The safe identifier has at most 90 characters and only `[A-Za-z0-9_]`, with no two `_` adjacent. It is a prefix of the replaced URL: the whole of it when that fits in 90 characters, and exactly its first 90 characters otherwise. Its letters and digits are a prefix of the URL's. |
| `Artifacts.SanitizeIdempotent` | check-stock.js:69 | Sanitising a safe identifier again changes nothing. |
| `Artifacts.ArtifactBase` | check-stock.js:70-71 | The base name starts with the URL's safe identifier, followed by `_` and the tag; it is made of `[A-Za-z0-9_]` only and is at most 91 characters plus the tag. |
| `Artifacts.TagRecoverable` | check-stock.js:70-71 | Both the tag and the URL's safe identifier can be read back from the base name. |
| `Artifacts.ArtifactBaseInjective` | check-stock.js:69-71 | Two captures share a base name only when they have the same tag and their URLs sanitise to the same identifier. |
| `Environment.MissingKeys` | check-stock.js:40 | A key is listed exactly when it is one of the required keys and is absent, empty or blank after trimming. |
| `Environment.MissingKeysAppend` | check-stock.js:40 | The filter keeps order: the keys missing from a concatenation are those missing from each part, one after the other. |
| `Environment.UnsetIff` | check-stock.js:40 | A value counts as unset exactly when it is absent or consists only of JavaScript white space (the empty value included). |
| `Environment.EnsureEnv` | check-stock.js:39-44 | The check passes exactly when every key is set. Otherwise it fails with a non-empty list that equals the order-preserving filter of unset keys, so set keys are never named. |
| `Run.CheckAll` | check-stock.js:131-149 | The subject is the fixed subject. The body is the header, then each category's heading followed by one result line per URL, joined by newlines. The flag is raised exactly when some URL's result text contains `在庫あり`. The captures are those of each judgment, in URL order. |
| `Run.CheckUrls` | check-stock.js:138-142 | One category's inner loop: one result line per URL in order, the flag exactly when some result in it contains `在庫あり`, and the captures of its judgments in order. |
| `Run.CategoryStep` | check-stock.js:136-143 | Finishing category i extends the report by its heading and its result lines, ORs its flag into the run's flag, and appends its captures. |
| `Run.AnyInStockAppend` | check-stock.js:134-140 | The flag over two consecutive stretches of URLs is the disjunction of the flags over each. |
| `Run.CapturesAppend` | check-stock.js:138-139 | The captures over two consecutive stretches of URLs are those of each, in order. |
| `Run.InStockMarkIff` | check-stock.js:140 | Among the three result texts, only the in-stock one contains `在庫あり`. |
| `Run.AnyInStockIff` | check-stock.js:134-140 | The flag built URL by URL is raised exactly when some URL's result text contains `在庫あり`, so it stays false with no URLs. |
| `Run.RunInStockIff` | check-stock.js:134-140 | With the texts `Judge` returns on page snapshots, the flag is raised exactly when some URL's navigation succeeded, showed no out-of-stock text and showed the cart button. |
| `Run.FailedTextIff` | check-stock.js:81-102 | Only the fetch-failed result has the `取得失敗` text. |
| `Run.JudgedCapturesOnFailure` | check-stock.js:76-104 | On page snapshots, each URL's judgment captures diagnostics once when it returns `取得失敗` and never otherwise. |
| `Run.CapturesCount` | check-stock.js:80-101 | For a judgment that captures once per `取得失敗` result and never otherwise, the number of captures over a run equals the number of `取得失敗` results. |
| `Run.TargetsLength` | check-stock.js:136-138 | The targets are all URLs of all categories, each once: their number is the sum of the categories' sizes. |
| `Run.LineCount` | check-stock.js:132-143 | The report has 1 + #categories + #URLs lines, and is the header alone for an empty catalogue. |
| `Run.SectionsLength` | check-stock.js:136-143 | The part after the header has one line per category and one per URL. |
| `Run.LinesLayout` | check-stock.js:132-143 | Category i's heading is line 1 + i + (URLs before it). The lines after it are its URLs' results, in order, each naming its URL and its judgment's text. |
| `Run.SectionsPrefix` | check-stock.js:136-143 | The lines of the first m categories are a prefix of the lines of all of them: later categories only append. |
| `Run.SectionsLayout` | check-stock.js:136-143 | After the header, category i's block (its heading, then one result line per URL in order) sits right after the blocks of the categories before it. |
| `Run.UrlLineAt` | check-stock.js:138-142 | The j-th result line of a category names its j-th URL and that URL's judgment text. |
| `Run.BodySplits` | check-stock.js:147 | When no stamp, category name, URL or result text holds a newline, splitting the body at newlines gives back exactly the report lines. |
| `Run.SectionsPlain` | check-stock.js:136-143 | With newline-free names, URLs and results, no report line after the header contains a newline. |
| `Run.SectionPlain` | check-stock.js:137-141 | With a newline-free name, URLs and results, no line of one category's block contains a newline. |
| `Run.JudgedPlain` | check-stock.js:81-102 | None of the three result texts holds a newline, so on page snapshots only URLs can break the line structure. |
| `Strings.SplitJoin` | check-stock.js:147 | Joining with a one-character separator that no part contains is undone by splitting at that character. |
| `Strings.ContainsInfix` | check-stock.js:140 | `includes` finds a string wherever it occurs inside another. |
| `Strings.ContainsOccurs` | check-stock.js:140 | `includes` answers true only when the string occurs at some position. |
| `Strings.ContainsIff` | check-stock.js:140 | `includes` holds exactly when the string occurs at some position (both directions). |

## Left out

- Browser launch, context options, user agent and the webdriver-hiding init script (check-stock.js:107-129): foreign library calls. Each page is given as a snapshot.
- The real behaviour of `page.goto`, `locator.waitFor` and `isVisible`: replaced by the snapshot's answers. One function per page gives the same answer each time a selector is asked.
- The `Promise.race` of waits (check-stock.js:85-89): timeouts and concurrency. Each wait swallows its own failure and the race's value is discarded, so it cannot change the result.
- Screenshots, HTML dumps and `fs.mkdirSync` (check-stock.js:66-72): file I/O. A capture is modelled as its base name and tag. Failures inside `saveArtifacts` are swallowed there, so they never reach `judge`.
- `sendMail`, nodemailer and the SMTP port parsing (check-stock.js:48-62): network I/O and JavaScript number coercion.
- The date and locale formatting of the header (check-stock.js:131): the stamp is an opaque string.
- The top-level entry, console output and `process.exit` (check-stock.js:153-164), and the top-level call of `ensureEnv` (check-stock.js:45). That call appears only as `RequiredKeys`.
- The concrete URL table (check-stock.js:14-32): the catalogue is a parameter, in `Object.entries` order.
- `Run.Judged`: each URL's page is one snapshot for the whole run, so a URL listed twice in the catalogue is judged the same both times, where the browser navigates afresh on every call; the URLs in the concrete table are distinct.
- `browser.close()` (check-stock.js:145): resource cleanup with nothing to state.
- `waitMs`, the navigation timeout and the 15-second wait passed by `checkAll`: they only feed the waits left out above.
- `Environment.ErrorMessage` models the message of the thrown error (check-stock.js:42) without a contract of its own. `Strings.Join` and `Strings.Split` are helpers, related by `Strings.SplitJoin`.
