# GSMArena phone scraper — decision logic in Dafny

`scraper.py` reads a list of GSMArena product URLs, downloads each product
page, extracts about fifty specification fields from it with a table of
declarative rules, walks the product's multi-page review, and posts one
record per phone to a storage endpoint. This project models the decision
logic of that program and proves what it promises:

- `Extractor` — `get_element_text_bs4`: one rule applied to one parsed page.
  A rule either names a CSS selector or asks for the first `td.nfo` cell
  after the first `td` that mentions a phrase; the element found yields an
  attribute, block text or single-line text, and the rule's default on a
  miss or an exception.
- `Review` — `fetch_review_text_bs4`: the bounded pagination loop over at
  most 15 review pages, as a `method` with its loop, proved equal to a
  recursive specification (`Walk`) about which the pagination properties
  are proved.
- `PhoneData` — `fetch_phone_data_bs4`: the loop filling the label→value
  dict (a Python dict, modelled with its insertion order), the review
  status, and the all-fields-failed result of a network error.
- `Pipeline` — `process_url_wrapper`: URL normalisation, the model-name
  gate, brand derivation, the `specs` list, and the call to the storage
  endpoint, modelled as a `Sink` object that records what it is sent.
- `Run` — the main block: which lines of the URL list are processed, and
  the completion loop that sorts finished tasks into the successful and
  failed lists.
- `Text`, `Dom`, `Wrappers` — the Python string operations the program
  uses (`strip`, `lower`, `in`, `startswith`, `join`, `split(' ')[0]`),
  what the program sees of a parsed page, and an `Option` type.

The HTML parser, the CSS-selector engine, `urljoin` and HTTP are inputs of
the model, not parts of it: a `Page` carries the selector engine as a
function and the document's tags in order; a review page carries the
answers of the walker's three fixed queries; a request is a function from
URL to `Response` (a page, or the text of the request exception); `urljoin`
is a function parameter; whether the storage endpoint reports success is
the `accepts` function of the `Sink`.

Behaviour kept as the code has it, where a reader might expect otherwise:

- The review status is decided by substring tests on the raw review text
  (scraper.py:127), not by whether paragraphs were collected: a review
  whose text itself contains "İnceleme Metni Yok" is reported as
  "Review Yok" (`PhoneData.ParagraphCanHideReview`).
- The brand is "Marka Yok" whenever the model name merely contains
  "Bilinmeyen Model" (scraper.py:181).
- Without a "Model Adı" rule the model name falls back to
  "Bilinmeyen Model", which passes the gate (scraper.py:176-177), so a
  record is submitted even after a network error
  (`Pipeline.MissingTitleRuleSubmitsUnknown`); with the program's own
  table, which has that rule, a network error never submits
  (`Pipeline.NetworkErrorNeverSubmits`).
- An attribute that is only whitespace passes the truthiness test and is
  then stripped, so the field becomes "" rather than the default
  (scraper.py:66-67, `Extractor.BlankAttributeGivesEmpty`).

## Model

| member | source | states |
|---|---|---|
| Text.Strip | scraper.py:169 | `str.strip()`: the result has no whitespace (Python's `isspace` set) at either end, and an already stripped string is returned unchanged |
| Text.StripTrims | scraper.py:169 | the stripped string is the input with only whitespace removed from its two ends |
| Text.StripEmptyIffBlank | scraper.py:67 | `strip()` gives "" exactly when every character of the input is whitespace |
| Text.Lower | scraper.py:58 | `lower()` keeps the length and folds each character on its own (ASCII letters) |
| Text.ContainsOccurs | scraper.py:127 | `sub in s` holds exactly when `sub` occurs at some index of `s` |
| Text.Join | scraper.py:111 | `sep.join(parts)` is empty for no parts, begins with the first part and ends with the last |
| Text.JoinStripped | scraper.py:69-70 | joining non-empty stripped parts gives a stripped string, empty exactly when there are no parts |
| Text.FirstToken | scraper.py:181 | `s.split(' ')[0]` is a prefix of `s` without a space, followed in `s` by a space or by nothing |
| Dom.KeptStringsStripped | scraper.py:103 | keeping the stripped non-empty strings gives at most as many strings, each non-empty and stripped |
| Dom.KeptStringsAppend | scraper.py:103 | the filter distributes over concatenation, so kept paragraphs stay in page and document order |
| Dom.KeptStrings | scraper.py:103 | definition: `[s.strip() for s in strings if s.strip()]`, the stripped strings with the empty ones dropped, in order; its properties are `KeptStringsStripped` and `KeptStringsAppend` |
| Dom.GetText | scraper.py:69-70 | `get_text(sep, strip=True)` is stripped and empty exactly when the tag has no non-blank text string |
| Extractor.FindFirst | scraper.py:58-60 | the scan behind `soup.find` over the tags and `find_next_sibling` over the following siblings returns the first element in order that passes the test, or reports that none passes |
| Extractor.IsAnchor | scraper.py:58 | definition: the `soup.find` test, a `td` whose stripped text contains the phrase once both are lower-cased; its properties are `AnchorIgnoresCase` and `AnchorPhraseLowered` |
| Extractor.Locate | scraper.py:52-62 | a plain rule finds exactly the selector's match and raises exactly when the selector raises; a sibling rule never raises and finds the first `td.nfo` after the first anchor, or nothing when there is no anchor or the first anchor has no such sibling |
| Extractor.ExtractField | scraper.py:48-73 | default when nothing is found or the lookup raised; attribute mode: the stripped attribute, default when absent, empty or not a single string; text modes: the stripped strings joined by newline (block) or nothing, default when there are none; the result is always the default or stripped |
| Extractor.StrategyDispatch | scraper.py:53-58 | a plain rule depends only on the selector engine, a sibling-anchor rule only on the document's tags |
| Extractor.TextModeNonEmpty | scraper.py:68-70 | in a text mode the field is never empty when the default is not |
| Extractor.BlockModeKeepsLines | scraper.py:68-70 | two text strings come out on two lines in block mode and run together otherwise |
| Extractor.SiblingAnchorSkipsPlainCells | scraper.py:56-62 | the sibling strategy skips a plain cell after the anchor and returns the text of the `td.nfo` after it |
| Extractor.AnchorIgnoresCase | scraper.py:58 | for all cells and phrases: cells whose texts agree once lower-cased, tested with phrases that agree once lower-cased, are both anchors or both not |
| Extractor.AnchorPhraseLowered | scraper.py:58 | a phrase matches a cell exactly when its lower-case form does |
| Extractor.BlankAttributeGivesEmpty | scraper.py:65-67 | in attribute mode, a non-empty string attribute gives "" (not the default) exactly when it is all whitespace |
| Review.WalkBounds | scraper.py:93-109 | the walk requests at most as many pages as it has left, requests none exactly when it has no pages left or no URL, and collects paragraphs only when it requested a page |
| Review.Walk | scraper.py:93-109 | definition: the pagination loop as recursion over the pages left, stopping at no URL, no pages left, a failed request or a page without a review body, and otherwise keeping the page's paragraphs and following its next link; its properties are the `Walk…` lemmas, and `WalkPages` is proved equal to it |
| Review.ReviewPagesVisited | scraper.py:92-93 | at most 15 review pages are requested after the product page |
| Review.ReviewText | scraper.py:75-111 | definition: the walker's result, the main-page failure, no-link and no-paragraph sentinels or the paragraphs joined by a blank line; `FetchReviewText` is proved equal to it, and `SentinelsMeanNoReview` and `ReviewPresentMeansParagraphs` state its cases |
| Review.FetchReviewText | scraper.py:75-111 | the loop with its page counter and paragraph accumulator returns exactly the walker's result (a sentinel for a failed main page, a missing review link or no paragraphs, else the paragraphs joined by a blank line) and requests at most 15 review pages |
| Review.WalkPages | scraper.py:92-109 | the pagination loop with its page counter collects exactly the paragraphs and requests exactly the pages of the walk from the review link |
| Review.WalkCollectsVisitedPages | scraper.py:102-104 | the collected paragraphs are exactly the kept paragraphs of the requested pages, page after page |
| Review.WalkParagraphsStripped | scraper.py:102-104 | every collected paragraph is non-empty and stripped |
| Review.WalkFollowsNextLinks | scraper.py:105-106 | the walk starts at the review link, goes from each page to the page its enabled "next" link names, and stops before the cap only at a page that failed, has no review body or has no next link |
| Review.SelfLinkStopsAtCap | scraper.py:92-106 | a page whose "next" link points to itself is requested once per remaining iteration and no more |
| Review.MissingBodyOnFirstPage | scraper.py:100-110 | a first review page without `#review-body` ends the walk after one request with the "no paragraphs" sentinel |
| PhoneData.Dict.Put | scraper.py:123 | `d[key] = value` maps the key to the value, leaves every other key's value, and appends the key to the order only when it is new |
| PhoneData.PutKeepsValid | scraper.py:123 | `d[key] = value` keeps a well-formed dict well formed (keys listed once each, exactly the mapped keys) |
| PhoneData.Dict.Items | scraper.py:188 | `items()` has one pair per key; definition: the keys in insertion order, each with its value; `ItemsFollowRules` states it for the built dict |
| PhoneData.BuildDictValid | scraper.py:121-123 | the dict filled by the loop is well formed |
| PhoneData.BuildDict | scraper.py:121-123 | definition: `d[label] = value` for each rule in order, starting from the empty dict; its properties are the `BuildDict…` lemmas, and `FetchPhoneData`'s loop is proved equal to it |
| PhoneData.BuildDictKeys | scraper.py:121-123 | its keys are exactly the rules' labels |
| PhoneData.BuildDictLastWins | scraper.py:121-123 | each label holds the value of the last rule with that label |
| PhoneData.BuildDictInRuleOrder | scraper.py:121-123 | with distinct labels, the keys are in rule order |
| PhoneData.BuildDictHoldsEachRule | scraper.py:121-123 | with distinct labels, each label holds its own rule's value |
| PhoneData.ItemsFollowRules | scraper.py:121-123 | with distinct labels, `items()` is each rule's label and value in rule order |
| PhoneData.FailedSpecsMarkEveryLabel | scraper.py:139 | after a network error the keys are exactly the labels and every value is "Veri Çekme Başarısız" |
| PhoneData.FailedSpecs | scraper.py:139 | definition: the comprehension mapping every label to "Veri Çekme Başarısız", written as `BuildDict` with that constant value; its property is `FailedSpecsMarkEveryLabel` |
| PhoneData.ReviewStatus | scraper.py:126-128 | the status is "Review Yok" exactly when the raw review contains "İnceleme Metni Yok" or "İnceleme Metni Bulunamadı", else "Review Var" |
| PhoneData.FetchPhoneData | scraper.py:113-140 | the field loop and the review walk give exactly the scraped result: on a network error the failed dict, "Ağ Hatası (…)" and "Hata oluştu" twice; otherwise the rule values, the status, the placeholder and the raw review; the specs dict is well formed |
| PhoneData.ScrapedSpecsValid | scraper.py:113-140 | with or without a network error, the specs dict returned is well formed |
| PhoneData.ScrapedData | scraper.py:113-140 | definition: the four results, the failure dict and markers on a network error, else the rule values, the review status, the placeholder and the raw review; `FetchPhoneData` is proved equal to it |
| PhoneData.SentinelsMeanNoReview | scraper.py:126-128 | each of the walker's three sentinel results yields "Review Yok" |
| PhoneData.ReviewPresentMeansParagraphs | scraper.py:126-128 | "Review Var" is reported only when the walker collected paragraphs, and the raw review is then those paragraphs joined by blank lines |
| PhoneData.ParagraphCanHideReview | scraper.py:127 | a collected review whose first paragraph opens with "İnceleme Metni Yok" is reported as "Review Yok" |
| PhoneData.NetworkErrorMarksEveryField | scraper.py:132-140 | after a network error every label maps to the failure value, the status names the error and the raw review is "Hata oluştu" |
| Pipeline.NormalizeUrl | scraper.py:169-171 | the result is stripped and has an `http://` or `https://` prefix; it is the stripped URL exactly when that already had one, else `https://` followed by it |
| Pipeline.NormalizeIdempotent | scraper.py:169-171 | normalising twice equals normalising once |
| Pipeline.Brand | scraper.py:181 | "Marka Yok" when the name contains "Bilinmeyen Model"; otherwise a space-free prefix of the name followed by a space or by nothing |
| Pipeline.BrandIsFirstWord | scraper.py:181 | for a name `word + " " + rest` the brand is `word` |
| Pipeline.ModelName | scraper.py:176 | definition: `specs_dict.get("Model Adı", "Bilinmeyen Model")` |
| Pipeline.ModelNameUsable | scraper.py:177 | definition: the gate, the name is non-empty, is not "Model Adı Yok" and does not contain "Veri Çekme Başarısız"; `RecordFor` and `ProcessUrl` state that nothing is sent exactly when it fails |
| Pipeline.RecordSpecs | scraper.py:188 | the `specs` list omits "Model Adı" and "Resim URL", keeps every other item, and holds nothing that is not an item |
| Pipeline.RecordSpecsAppend | scraper.py:188 | the comprehension distributes over concatenation, so label order is kept |
| Pipeline.RecordFor | scraper.py:176-189 | no record exactly when the model name is empty, contains "Veri Çekme Başarısız" or equals "Model Adı Yok"; otherwise the record's fields are the URL, that name, its brand, the image URL (default "Resim Yok"), the review fields and the `specs` list |
| Pipeline.Sink.Save | scraper.py:142-160 | the endpoint logs the record it is sent and reports whether it accepted it |
| Pipeline.ProcessUrl | scraper.py:162-198 | returns the normalised URL; the endpoint is called once, with the assembled record, exactly when the gate passes, and success is its answer; otherwise nothing is sent and the result is failure |
| Pipeline.NetworkErrorNeverSubmits | scraper.py:176-179 | with a "Model Adı" rule, a network error never reaches the endpoint |
| Pipeline.UnknownModelPassesGate | scraper.py:176-181 | the fallback name "Bilinmeyen Model" passes the gate and gets brand "Marka Yok" |
| Pipeline.MissingTitleRuleSubmitsUnknown | scraper.py:176-181 | without a "Model Adı" rule, a network error still produces a record named "Bilinmeyen Model" with brand "Marka Yok" |
| Run.UrlsAreListedLines | scraper.py:277 | every URL read is non-empty, stripped and not a comment, comes from a listed line, and there are at most as many as lines |
| Run.ListedLinesAreUrls | scraper.py:277 | every line that is non-empty and not a comment once stripped is read, stripped |
| Run.UrlsToProcessAppend | scraper.py:277 | the filter distributes over concatenation, so file order is kept |
| Run.UrlsToProcess | scraper.py:277 | definition: the stripped lines that are non-empty and do not start with "#", in file order; its properties are `UrlsAreListedLines`, `ListedLinesAreUrls` and `UrlsToProcessAppend` |
| Run.SucceededUrlsAreReported | scraper.py:297-301 | every successful URL is the URL reported by a task that returned success |
| Run.FailedUrlsAreReported | scraper.py:297-307 | every failed URL is the URL reported by a task that returned failure or raised |
| Run.SucceededUrls | scraper.py:297-301 | definition: the reported URL of each task that returned success, in completion order |
| Run.FailedUrls | scraper.py:297-307 | definition: the reported URL of each task that returned failure, or the original URL of each task that raised, in completion order |
| Run.CollectResults | scraper.py:289-307 | the completion loop builds exactly the successful and failed lists of the tasks in completion order |
| Run.PartitionIsPermutation | scraper.py:289-307 | the two lists together are a permutation of the tasks' reported URLs, one entry per task |
| Run.RunReportsEveryUrlOnce | scraper.py:292-307 | for a run over a URL list, the two lists hold as many entries as the list, and every successful URL has a scheme |

## Left out

- Session and retry configuration (scraper.py:31-46: five retries, status codes 429, 500, 502, 503 and 504, backoff factor 1) happens inside the HTTP library; a request is modelled only by its final outcome.
- HTML parsing, CSS-selector matching, `find_all('p', string=True)` and `urljoin` are inputs (the `Page` and `ReviewPage` data and the `join` parameter), not modelled.
- `save_data_to_php` (scraper.py:142-160), an HTTP POST with a JSON answer, is reduced to the `Sink` whose `accepts` function decides success.
- The thread pool, `as_completed` ordering and the random 10–15 s delay (scraper.py:165-167, 292-294): the model takes the completed tasks in any order as input.
- File reading and writing, timestamped logs, the `PHP_SAVE_URL` environment check, the empty-list exit and all printing (scraper.py:205-217, 276-287, 309-343) are I/O.
- The 52-entry rule table (scraper.py:219-272) is configuration; lemmas use representative rules.
- Text.Lower: folds ASCII letters only; Python's `lower()` also folds non-ASCII letters, which the model does not capture.
- PhoneData.FetchPhoneData: the generic `except Exception` path (scraper.py:135-137, status "Genel Veri Çekme Hatası (…)") is not modelled, because every modelled step is total; an exception from the parser or the review walker outside a request is not represented.
- Pipeline.ProcessUrl: the wrapper's own `except Exception` path (scraper.py:194-196) is not modelled for the same reason; a task that raises is still modelled in the completion loop as `Raised`.
- The product page is requested twice, once for the fields and once by the review walker; the two requests are answered by separate inputs that the model does not relate.
