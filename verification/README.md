# AethricCrawler crawl engine in Dafny

This project models the core of `Crawler.py` from AethricCrawler, a small asynchronous web
crawler for the Orna codex (`playorna.com`). The parts modelled are:

- `UrlFilterer.filter_url`: it resolves a link against its page, drops the fragment, and
  checks the scheme, domain and file-type allow-lists and the blocked-phrase list, in that order.
- `UrlParser.handle_starttag` and `parse_links`: they collect the filtered `href` of every `<a>`
  start tag on a page.
- `SpellParser`: it captures a spell's name and description with two flags. `div`/`h1` start
  tags with the right class turn a flag on, and any `div`/`h1` end tag turns both off.
- The `Crawler` engine: `run`, `on_found_links` and `put_todo` (the admission step, with the
  `total`/`limit` cap and the `?p=` pagination marker), and the workers'
  `todo.get()` / `crawl` / `task_done()` cycle. That cycle is a state machine whose two steps the
  event loop may interleave in any order.
- `SpellReader`: it admits every address up to `limit = len(urls)`. Its `crawl` records, for
  each address, the name and description parsed from one page per language.

Modules, one per file: `Options` (an `Option` type), `Text` (Python's `in` on strings and
`str.strip`), `Urls` (URL records, fragment removal, `pathlib` name and suffix), `UrlFilter`,
`Html` (parser events), `LinkCollector`, `SpellParser`, `Crawler`.

Things outside the program become parameters:
- `urllib.parse.urljoin` followed by `urlparse` is a function parameter `resolve` of type
  `Urls.Resolver`.
- A fetched page is the sequence of events `html.parser` would deliver for it.
- The order in which Python iterates a set is an explicit `order` sequence that lists the set.
- A visit's result is an `Outcome`: it raised, it found these links, or it fetched these pages.

The crawl state keeps two logs that exist only in the model, `admitted` and `dequeued`. They
record every address put on and taken off the queue, so that "no address is queued twice" can
be stated directly. `Crawler.Inv` ties them to the fields of the Python `Crawler` class.

Two consequences of the code are worth knowing:
- `limit` caps `total`, not `seen`. `on_found_links` marks every new address as seen, including
  the ones `put_todo` rejects, so `seen` can grow past `limit` (`Crawler.SeenMayPassTheCap`).
  What holds is `|done| <= total`, and `total <= limit` whenever `limit >= 0`. A negative
  `limit` admits nothing, so `total` stays 0 (`Crawler.CrawlNeverRepeats`).
- The base crawler's `put_todo` rejects every address without `?p=`, seeds included. `main`'s
  only seed, `https://playorna.com/codex/spells/`, has no `?`, so it is never queued and the
  crawl ends at once (`Crawler.UnmarkedSeedsAreNeverQueued`, `Crawler.NoQuestionMarkNoMarker`).

## Model

| member | source | states |
|---|---|---|
| `Text.ContainsIffOccurs` | Crawler.py:42 | Python's substring test `p in s` holds exactly when `p` occurs at some position of `s`. |
| `Text.Strip` | Crawler.py:88 | `data.strip()` has no leading or trailing whitespace, and it is what remains of `data` after removing only whitespace at both ends. |
| `Text.StripFixesTrimmed` | Crawler.py:90 | Stripping leaves text without surrounding whitespace unchanged, so stripping twice is the same as stripping once. |
| `Urls.ParamsOf` | Crawler.py:30 | `urlparse` cuts `;params` off the last path segment only: a path whose last segment has no `;`, followed by `;params`, splits back into that path and those params. |
| `Urls.ParseHeadOf` | Crawler.py:30 | The part of a well-formed URL before its query splits back into its scheme, netloc, path and params. |
| `Urls.ParseRender` | Crawler.py:29-30 | Parsing the string of a well-formed URL gives back the same scheme, netloc, path, params, query and fragment, so the string and its parts cannot disagree. |
| `Urls.Defrag` | Crawler.py:29 | `urldefrag` drops the fragment and keeps every other component. |
| `Urls.DefragRoundTrip` | Crawler.py:29 | After `urldefrag`, the URL string has no `#`, and parsing it gives back the defragmented URL. |
| `Urls.FileName` | Crawler.py:37 | `Path(path).name` is the last component that is neither empty nor `.`: it is a whole `/`-separated segment of the path followed only by empty or `.` segments. It is `""` exactly when every segment is empty or `.`. It has no `/`, and a path with no `/` other than `.` is its own name. |
| `Urls.FileNameOfChild` | Crawler.py:37 | Appending `/name` to any directory gives a path whose name is `name`, for every name that is a real component. |
| `Urls.Suffix` | Crawler.py:37 | `.suffix` is non-empty exactly when the name has a dot after its first character and does not end in a dot. In that case it is a tail of the name of at least two characters. |
| `UrlFilter.FileType` | Crawler.py:37 | `Path(parsed.path).suffix`: the type is non-empty exactly when the last component has a dot after its first character and does not end in a dot (so `.bashrc`, `a.` and dotless names have type `""`). A non-empty type is the component's tail from its last dot: a dot, at least one character, no further dot. `;params` are not part of it. |
| `UrlFilter.FilterUrl` | Crawler.py:27-44 | A link is rejected if its scheme, domain or file type is outside a set allow-list, or if a blocked phrase occurs in it. Otherwise the result is the joined URL without its fragment, and it parses back to that URL. |
| `UrlFilter.UnrestrictedAcceptsAll` | Crawler.py:27-44 | With all four rule sets `None`, every link is accepted as its joined URL without the fragment. |
| `UrlFilter.ExtensionlessNeedsEmptyType` | Crawler.py:37-40 | A link whose last path component has no dot passes a file-type rule only if `""` is one of the allowed types. |
| `UrlFilter.EmptyPhraseBlocksAll` | Crawler.py:41-43 | Blocking the empty phrase rejects every link, because `"" in url` always holds. |
| `UrlFilter.AcceptedMeetsEveryRule` | Crawler.py:31-44 | An accepted link meets every rule that is set: its scheme, domain and file type are allowed, and no blocked phrase occurs in it. |
| `UrlFilter.CodexRulesStayOnSite` | Crawler.py:247-252 | Under `main`'s filter, only `http`/`https` links on `playorna.com` pass, with file type `.html`, `.php` or none, and mentioning neither `lang` nor `releases/`. |
| `LinkCollector.AddHrefs` | Crawler.py:63-68 | After scanning a tag's attributes, the found set is the old set plus the filtered value of each `href` attribute that the filter accepts. |
| `LinkCollector.HandleStartTag` | Crawler.py:58-68 | A non-`a` tag changes nothing. An `a` tag adds exactly the accepted filtered values of its `href` attributes. |
| `LinkCollector.CollectLinks` | Crawler.py:167-170 | `parse_links` returns exactly the URLs that the filter produced for some `href` of some `<a>` start tag on the page. |
| `LinkCollector.CollectedLinksPassFilter` | Crawler.py:67-68 | Every collected link is the filter's output for some reference. |
| `SpellParser.OnStartTag` | Crawler.py:92-99 | Only a `div`/`h1` changes a flag. The description class turns on the description flag. Otherwise the name class turns on the name flag. No flag is turned off, and no text changes. |
| `SpellParser.OnEndTag` | Crawler.py:79-84 | Closing a `div`/`h1` turns both flags off. Any other end tag changes nothing. |
| `SpellParser.OnData` | Crawler.py:86-90 | While the name flag is on, text replaces the name, stripped. Otherwise, while the description flag is on, it replaces the description. The flags never change here. |
| `SpellParser.FlagsAfter` | Crawler.py:79-99 | After any prefix of a page, a flag is on exactly when an opening tag for it came earlier and no `div`/`h1` has closed since. |
| `SpellParser.CapturedMeansOpen` | Crawler.py:86-90 | Text lands in the name exactly when the name block is open. It lands in the description exactly when the description block is open and the name block is not. |
| `SpellParser.NameStaysEmpty` | Crawler.py:73 | If no text was captured for the name, the name is still `""`. |
| `SpellParser.LastNameWins` | Crawler.py:87-88 | The name is the stripped text of the last event captured for the name. |
| `SpellParser.DescriptionStaysEmpty` | Crawler.py:74 | If no text was captured for the description, the description is still `""`. |
| `SpellParser.LastDescriptionWins` | Crawler.py:89-90 | The description is the stripped text of the last event captured for the description. |
| `SpellParser.ParseSpell` | Crawler.py:205-208 | Both fields `parse_spell_info` returns are stripped, with no whitespace at either end. |
| `SpellParser.FieldsStayTrimmed` | Crawler.py:73-90 | After any prefix of a page, both fields are either the initial `""` or stripped text, so neither has whitespace at either end. |
| `SpellParser.ParseSpellFields` | Crawler.py:205-208 | `parse_spell_info` returns, for each field, the stripped text of the last event captured for it, or `""` if there was none. |
| `Crawler.PutTodo` | Crawler.py:181-188 | Below the cap, an address the variant admits is queued and counted. That means the `?p=` marker for the base crawler and any address for `SpellReader`. Any other address leaves the crawler unchanged, and the count never passes the cap. |
| `Crawler.Admissible` | Crawler.py:184-185 | The base crawler admits an address exactly when `?p=` occurs at some position of it. `SpellReader` admits every address. |
| `Crawler.Selected` | Crawler.py:184-185 | The admissible addresses of an iteration: all of them, only them, and without repeats. |
| `Crawler.SelectedAppend` | Crawler.py:178-185 | Selection keeps iteration order: selecting from `xs + ys` is selecting from `xs`, then from `ys`. |
| `Crawler.SelectedOne` | Crawler.py:184-185 | A single address is selected exactly when it is admissible. |
| `Crawler.AdmittedStep` | Crawler.py:178-188 | When one address is offered: with the cap reached nothing more is admitted; an admissible address goes ahead of the rest, with one less room; an inadmissible one is skipped. |
| `Crawler.EnqueueStep` | Crawler.py:187-188 | Queuing one address and then a sequence is the same as queuing their concatenation. |
| `Crawler.OfferAll` | Crawler.py:178-179 | The loop of `put_todo` calls queues exactly the admissible addresses of the iteration that fit under the cap, in iteration order, and changes nothing else. |
| `Crawler.OnFoundLinks` | Crawler.py:172-179 | Every found address becomes seen. The queued addresses are new, admissible and found. If the round leaves room under the cap, every new admissible address is queued. Workers, done set and entries are untouched. |
| `Crawler.AdmittedFacts` | Crawler.py:178-188 | One round of admission queues no address twice, queues no more than the cap allows, and queues only admissible addresses that were offered. |
| `Crawler.AdmittedComplete` | Crawler.py:182-185 | If a round ends below the cap, it queued every admissible address offered. |
| `Crawler.SpellFields` | Crawler.py:215-219 | `SpellReader` records one name/description pair per listed language, in list order and duplicates included, each parsed from that language's page. |
| `Crawler.Visit` | Crawler.py:151-165 | A visit that raised changes nothing. A base crawl that found links marks them all seen, queues exactly the admitted new ones at the back of the queue, and marks its own address done. A `SpellReader` crawl appends exactly one entry, parsed from its pages, and changes nothing else. No visit changes the workers, and every queued address is new, distinct and under the cap. |
| `Crawler.Next` | Crawler.py:141-149 | A step that cannot happen changes nothing, and no step forgets a seen or done address, an admission or an entry. `get` moves the head of the queue to a worker and changes nothing else. A finishing worker applies its visit, so seen, queue, counter, done set and entries are the visit's. Then `task_done` releases the address and decrements the unfinished count, whatever the visit did. |
| `Crawler.FinishFoundMarksDone` | Crawler.py:144-165 | A base crawl that finished with found links has made them all seen, queued exactly the admitted new ones, marked its address done and released only its own worker. |
| `Crawler.Init` | Crawler.py:103-121 | A new crawler has seen, queued, counted and finished nothing, keeps its variant, worker count and cap, and already satisfies the bookkeeping invariant. |
| `Crawler.Run` | Crawler.py:123-132 | Only a frame property: a run of steps never changes the variant, the worker count or the cap. The run's substance is in `Crawler.RunInv` and `Crawler.CrawlTerminates`. |
| `Crawler.Start` | Crawler.py:123-124 | Priming marks every seed as seen and queues exactly the admitted seeds. |
| `Crawler.StartInv` | Crawler.py:113-124 | A freshly primed crawler satisfies the bookkeeping invariant. |
| `Crawler.HeadIsNew` | Crawler.py:142 | The head of the queue has never been taken before, and no worker holds it. |
| `Crawler.GetInv` | Crawler.py:142 | A worker taking the head of the queue keeps the invariant. |
| `Crawler.AppendKeepsQueue` | Crawler.py:172-188 | Appending new, distinct addresses that fit under the cap keeps the queue and counter part of the invariant. |
| `Crawler.FinishKeepsQueue` | Crawler.py:144-149 | Finishing a visit keeps the queue's part of the invariant. |
| `Crawler.FinishKeepsWorkers` | Crawler.py:148-149 | Finishing a visit frees its worker and keeps the unfinished count equal to queued plus held addresses. |
| `Crawler.FinishInv` | Crawler.py:141-149 | A worker finishing, by success or by a swallowed exception, keeps the invariant. |
| `Crawler.NextInv` | Crawler.py:134-149 | Every scheduling step keeps the invariant. |
| `Crawler.RunInv` | Crawler.py:134-149 | Every interleaving of steps keeps the invariant. |
| `Crawler.CrawlNeverRepeats` | Crawler.py:172-188 | Over any crawl, no address is queued twice or taken twice, the counter equals the admissions and never passes the cap, and `done` holds only seen addresses, at most `total` of them. |
| `Crawler.InvConsequences` | Crawler.py:165 | Under the invariant, taken addresses are distinct, and done addresses are seen and at most as many as were counted. |
| `Crawler.NextGrows` | Crawler.py:173-174 | A step never forgets a seen address, queued or not, and never queues an already-seen address that was not queued. |
| `Crawler.RunGrows` | Crawler.py:134-149 | Over any run, the seen and done sets, the admission log and the entries only accumulate. |
| `Crawler.RejectedStaysRejected` | Crawler.py:173-174 | An address seen but not queued, because of the cap or the marker, is never queued later. |
| `Crawler.OnFoundLinksIdempotent` | Crawler.py:172-179 | Reporting the same links again finds nothing new and changes nothing. |
| `Crawler.JoinMeansIdle` | Crawler.py:129 | `todo.join()` returns exactly when nothing is queued and no worker holds an address. |
| `Crawler.Progress` | Crawler.py:134-149 | While `join()` waits and there is a worker, some step can happen: a `get` or a `task_done`. |
| `Crawler.StepDecreases` | Crawler.py:141-149 | Every possible step strictly lowers a bound built from the remaining room under the cap, the queue length and the number of busy workers. |
| `Crawler.CrawlTerminates` | Crawler.py:123-132 | The number of steps in any run is bounded by that measure. With at least one worker (`Crawler.Progress`), `join()` is therefore eventually reached. |
| `Crawler.NoWorkerStalls` | Crawler.py:125-129 | With `workers = 0`, `range(0)` starts no worker, so no step can ever happen. A crawl with anything queued stays unfinished, and `join()` never returns. |
| `Crawler.SelectedKeepsAll` | Crawler.py:224-229 | `SpellReader` filters out no address. |
| `Crawler.SpellReaderQueuesEverySeed` | Crawler.py:199-202 | With `limit = len(urls)`, priming `SpellReader` queues every distinct address, in iteration order. |
| `Crawler.UnmarkedSeedsAreNeverQueued` | Crawler.py:184-185 | In the base crawler, seeds without `?p=` are seen but never queued. If no seed has the marker, nothing is queued and `join()` returns at once. |
| `Crawler.NoQuestionMarkNoMarker` | Crawler.py:258 | An address without `?`, such as `main`'s seed, cannot contain the `?p=` marker. |
| `Crawler.SeenMayPassTheCap` | Crawler.py:172-188 | With a cap of one and two marked seeds, both are seen but only the first is queued and counted. |

## Left out

- HTTP: `httpx` fetching, redirects and `response.url` are left out. A visit's result is an
  `Outcome` parameter. The links of the base crawler's `Found` outcome are taken as given; they
  are not computed with `LinkCollector.CollectLinks` from a fetched page, because the page and
  its final address come from the network.
- The per-language address `f"{url}?lang={lang}"` that `SpellReader.crawl` fetches is not
  modelled. The pages arrive in the `Fetched` outcome, one per language.
- asyncio: task creation and `cancel()` at the end of `run`, `asyncio.sleep(.2)`, and the
  internals of `asyncio.Queue` are left out. The queue is a sequence with an unfinished count.
  `get` and `task_done` are the two steps. `on_found_links` is one atomic step, because an
  unbounded queue's `put` never suspends.
- `urllib.parse.urljoin`/`urlparse`: these are the `resolve` parameter. `Urls.Render` rebuilds the
  string in `scheme:[//netloc]path[;params][?query][#fragment]` shape. The `urlunparse`
  normalisations of empty-netloc corner cases are left out.
- `html.parser` tokenisation: a page is its event sequence. Lower-casing of tag names and
  unescaping of attribute values are left out. An attribute written without a value (Python
  `None`) is treated as an empty reference, which `urljoin` resolves to the base.
- pandas: `SpellReader.entries` holds one `Entry` per address instead of one single-row
  DataFrame. `get_spells`' concatenation and sorting, `save_spell_urls`, `main`'s printing and
  CSV output, and its `spell_urls` selection are left out. These are I/O and reporting. When
  `langs` lists a language twice, the DataFrame's `name_<lang>`/`desc_<lang>` columns are
  overwritten and keep only the last page's fields. An `Entry` keeps one `LangFields` per
  listed position, duplicates included.
- Python set iteration order is unspecified. It is the `order` parameter, which must list the set
  exactly once per element.
- The worker count is a `nat`. A negative `workers` in Python starts no worker, which the model
  treats as zero. With no worker, `run()` never returns once any address is queued: no step is
  enabled (`Crawler.NoWorkerStalls`), and `Crawler.Progress` requires `workers >= 1`.
- `UrlFilter.FileType`, `Urls.Suffix`: they follow `PurePath.suffix` as of Python 3.13 and
  earlier. That rule uses the last dot at an index strictly between the first and the final
  character. Python 3.14 changed the rule: a trailing dot counts as a suffix (`'a.'` gives
  `'.'`), and leading dots are ignored (`'..a'` gives `''`). The newer rule is not modelled.
- `UrlFilter.FilterUrl`: the parse round trip of the result is stated only for well-formed URL
  records. `Urls.Parse` is a simplified `urlsplit`, so nothing is claimed for URLs whose parts
  contain their own delimiters.
- `UrlFilter.FilterUrl`: Python returns `urldefrag`'s string, which is `urljoin`'s output
  verbatim when there is no `#`. The model returns the rendering of the resolved record. Strings
  that differ only in spelling are therefore one address in the model and two in Python. Examples
  are an `HTTP://` scheme, a leading space, or a trailing empty `?`.
- `UrlFilter.FilterUrl`: `urlsplit` raises `ValueError` on a malformed URL, such as
  `http://[::1`. That error aborts `parse_links` for the whole page. `Urls.Resolver` is total,
  so the filter never raises. At crawl level, such a page is the `Raised` outcome of
  `Crawler.Visit`, which changes nothing.
- `Urls.ParseRender`: it is stated for the simplified `Urls.Parse`, not for CPython's
  `urlsplit` with its scheme-character rules. `Urls.Parse` splits `;params` for every scheme.
  `urlparse` does so only for the schemes in `uses_params`, which include `http` and `https`.
