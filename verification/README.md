# goki (gnosis) — a Dafny model of the wiki's text and decision logic

This project models the pure core of the gnosis wiki and search server:

- **Page metadata pre-parser** (`metadata.go`). Every line before a Setext title (a text line followed by an all-`=` line) is a `key [:=] value` metadata line. Values are slugged into topic and keyword sets. The body is everything from the title line on. The module also covers set membership (`MatchedTag`), the sorted listing (`ListMeta`) and the two HTML emitters.
- **Index-side helpers** (`index.go`):
  - the file-path to URI mapping;
  - the watcher's debounce queue, as a state machine fed by raw events and timer fires;
  - building the record indexed for a page;
  - shaping a search result into the response the templates render.
- **Request-path logic** (`handlers.go`):
  - stripping the handler's route from the request path;
  - the markdown handler's path normalisation and its reply;
  - the raw handler's restricted-suffix check and its reply.
- **Error-message selection** (`error.go`): the bit-flag codes, the template table, and the ordered case analysis that decides which optional fields become format arguments.

Files are byte strings, modelled as `string`, with one `char` per byte. Whitespace is Go's ASCII set (`\t \n \v \f \r` and space).

Modules:

- `Wrappers`: `Option` and `Result`.
- `Text`: the `bytes`/`strings` helpers the code relies on, with their round-trip lemmas.
- `Order`: byte-wise string order and the sorted listing of a set.
- `Metadata`, `Index`, `Watcher`, `Response`, `Handlers` and `Errors` follow the source files.

Four runtime panics of the code are modelled explicitly:

- **`checkMatch` on a key followed only by whitespace.** It reads the first byte of an empty value. In the model this is the precondition `!Panics(line, key)`. At handler level the request becomes `Crash`.
- **The markdown handler's nil dereferences** (handlers.go:111 and handlers.go:136). These are recorded under Findings.
- **The raw handler's nil-request dereference** (handlers.go:170), after a routing error. This is recorded under Findings too.
- **An upgraded error without an inner error** (error.go:21-22). `Error()` would call a method on a nil error. In the model this is the precondition of `Errors.ErrorMessage`: an upgraded error carries its inner error.

Reading files, rendering markdown and the file's modification time are parameters: `read`, `render`, `cleanup` and `modified`.

## Model

| member | source | states |
|---|---|---|
| Metadata.LineIsTitleIff | metadata.go:27-40 | a line is an underline iff, once surrounding whitespace is trimmed, every byte is `=`; so empty and blank lines count as underlines |
| Metadata.CheckMatch | metadata.go:52-86 | `checkMatch` as written. A value is produced iff the raw line is strictly longer than the key and starts with it byte for byte. The value has no space and is no longer than the text after the key. With its dashes removed, it equals the trimmed rest of the line, cut of ` \t\n=:` when it starts with `:` or `=`, with its spaces and dashes removed. When turning spaces into dashes leaves no `--`, the value is exactly that: the cut value with each space replaced by `-`. Whitespace-only values are excluded as the crash case |
| Metadata.Slug | metadata.go:60-77 | the stored slug of a trimmed value has no space, is no longer than the value, and keeps every byte of the cut value other than spaces and dashes, in order. When the cut value with spaces turned into dashes holds no `--`, the slug is exactly that string |
| Metadata.SlugSeparators | metadata.go:69-77 | between two kept bytes of the cut value with only spaces and dashes between them, the written slug puts half that many dashes, rounded up, and the intended slug one dash iff there was any separator. Each side is slugged on its own |
| Metadata.CollapseRun | metadata.go:72-77 | the written loop turns a run of n dashes before another byte into (n+1)/2 dashes |
| Metadata.CollapseSplit | metadata.go:72-77 | the written loop handles the text on either side of a byte other than a dash independently |
| Metadata.SqueezeRun | metadata.go:72-77 | the intended loop turns any non-empty run of dashes before another byte into one dash |
| Metadata.SqueezeSplit | metadata.go:72-77 | the intended loop handles the text on either side of a byte other than a dash independently |
| Metadata.CollapseKeepsNonDashes | metadata.go:72-77 | the written dash loop only removes dashes |
| Metadata.CheckMatchIntended | metadata.go:52-86 | `checkMatch` with its dash loop as intended. A value is produced on exactly the lines where the written one stores one. It has the same bytes apart from dashes and never holds `--`. When turning spaces into dashes leaves no `--`, it is exactly the cut value with each space replaced by `-` |
| Metadata.CollapseDashesFixed | metadata.go:72-77 | the written one-pass dash loop changes a value iff it holds `--`, and then strictly shortens it |
| Metadata.CollapseDashesShortRuns | metadata.go:72-77 | when no three dashes stand in a row, the written loop leaves no `--` behind |
| Metadata.SqueezeDashesFacts | metadata.go:72-77 | the loop as intended leaves no `--`. It changes a value iff the value holds `--`. It agrees with the written loop on values without three dashes in a row |
| Metadata.IntendedSlug | metadata.go:60-77 | the intended slug of a non-empty value has no space and no `--`, is no longer than the value, and keeps every byte of the cut value other than spaces and dashes, in order. When the cut value with spaces turned into dashes holds no `--`, the slug is exactly that string |
| Metadata.SqueezeKeepsNonDashes | metadata.go:72-77 | the intended dash loop only removes dashes |
| Metadata.CheckMatchAgrees | metadata.go:52-86 | the written and the intended `checkMatch` give the same value whenever the cut value, spaces turned to dashes, has no three dashes in a row |
| Metadata.CheckMatchEquals | metadata_test.go:148 | `topic = a` yields `a` and does not crash |
| Metadata.CheckMatchDoubleSpace | metadata_test.go:153 | `topic=g  h` yields `g-h` |
| Metadata.CheckMatchColon | metadata_test.go:156 | `topic :k` yields `k` |
| Metadata.CheckMatchLeavesDoubleDash | metadata.go:60-77 | `topic : l m   no` yields `l-m--no` as written and `l-m-no` as intended. The input is taken from metadata_test.go:157, a test of the newer parser |
| Metadata.FoundIff | metadata.go:43-50 | a value is contributed by a line under a list of keys iff one of those keys yields it |
| Metadata.ProcessMetadata | metadata.go:43-50 | processing a line leaves title and body alone, and only adds to the topic and keyword sets |
| Metadata.ProcessMetadataRoutes | metadata.go:43-50 | new topics come only from `tag`, `topic` and `category`, and new keywords only from `keyword` and `meta`. Every matching key's value is added |
| Metadata.ProcessMetadataIdempotent | metadata.go:79-84 | insertion is set insertion: processing the same line twice equals processing it once |
| Metadata.GatheredIff | metadata.go:140-146 | a value is gathered from a run of lines iff one of those lines contributes it |
| Metadata.UnionOfIff | metadata.go:140-146 | a value is in the union of a per-line set over a run of lines iff it is in the set of one of the lines |
| Metadata.ProcessAllGathers | metadata.go:140-146 | after processing a run of lines, the topics are the initial topics plus everything any line contributes under the topic keys; likewise for keywords |
| Metadata.ProcessAllSpaceFree | metadata.go:69-70 | if no stored topic or keyword contains a space, processing more lines keeps it so |
| Metadata.NextLine | metadata.go:118 | reading up to `\n` fails iff there is no `\n`; otherwise the line ends in `\n` and the line followed by the rest is the input |
| Metadata.NextLineStopsAtFirstNewline | metadata.go:118 | the line read contains no `\n` before its final byte |
| Metadata.LinesTail | metadata.go:96-100 | the newline-terminated lines of the input followed by the unterminated tail give back the input |
| Metadata.LoadPage | metadata.go:109-156 | input without `\n` fails with "I only read in... one line?". A loaded page keeps the title, only grows the sets, and its body is a suffix of the input |
| Metadata.LoadPageByLines | metadata.go:118-155 | when line k (k at least 1) is the first underline from the second line on, exactly the lines before line k-1 are processed, in order. The body is line k-1, the underline, then the remaining bytes verbatim |
| Metadata.LoadPageFails | metadata.go:118-151 | loading fails iff there is no underline from the second line on. No line gives the one-line error, one line gives "Is this page just a title?", and more give "never hit a title" |
| Metadata.LoadPageReassembles | metadata.go:88-106 | on success, the processed metadata lines followed by the body equal the input |
| Metadata.LoadPageSpaceFree | metadata.go:109-156 | a page loaded from a space-free start stores no topic or keyword containing a space |
| Metadata.OneTopicPageLoads | metadata.go:109-156 | the page `topic=x`, `T`, `=` loads without crashing and has the topic `x` |
| Metadata.MatchedTag | metadata.go:160-167 | true iff some listed tag is one of the page's topics |
| Metadata.ListMeta | metadata.go:170-181 | the two lists are strictly ascending and duplicate-free, and hold exactly the topics and the keywords |
| Order.SortedList | metadata.go:171-174 | the sorted listing of a set is strictly ascending, has the set's size and holds exactly its elements |
| Metadata.PrintTopics | metadata.go:185-194 | with no topics the output is empty. Otherwise it is a single tag div for the greatest topic, because the loop overwrites rather than appends |
| Metadata.LastIsGreatest | metadata.go:189-192 | the last element of an ascending list is its greatest |
| Metadata.PrintKeywords | metadata.go:197-212 | the output is empty iff there are no keywords; otherwise it opens with the keywords meta tag and closes it |
| Metadata.CommaAccumulateJoin | metadata.go:201-203 | accumulating keywords with `,` gives the start, a comma, then the keywords joined by commas |
| Metadata.PrintKeywordsContent | metadata.go:197-212 | when the first keyword is non-empty and does not start with `,`, and the last is non-empty and does not end with `,`, the content is the sorted keywords joined by `,`, commas inside keywords included |
| Metadata.PrintKeywordsJoins | metadata.go:197-212 | for non-empty, comma-free keywords the content is the sorted keywords joined by `,`, and splitting it at commas gives the list back |
| Index.GetURIPath | index.go:221-225 | the result starts with the URI prefix. Below it lies the file path minus the file prefix when the path has that prefix, and the whole file path otherwise |
| Index.GetURIPathInverse | index.go:221-225 | every path below the file prefix maps to the same path below the URI prefix |
| Index.GetURIPathExamples | index_test.go:24-27 | the four test cases map as the test expects |
| Index.RestrictedMessage | index.go:204 | the refusal message starts with "Hit a restricted page - " and ends with the title |
| Index.ErrorText | index.go:198-205 | the error text is the loader's own message for a load failure, and the refusal message, ending with the page title, for a restricted page |
| Index.GenerateWiki | index.go:196-219 | load errors pass through. A loaded page is refused iff one of its topics (slugs as written) is restricted, and the refusal names its title. Otherwise the record carries the page's title, the cleaned-up body, the URI path and the modification time, with empty authors |
| Index.GenerateWikiSplits | index.go:207-214 | splitting the joined topic and keyword fields at spaces gives the sorted lists back when they are non-empty, and `[""]` when empty |
| Watcher.EventAction | index.go:144-156 | a queued event acts iff its name has the watched extension and its op is exactly Create, Write, Remove or Rename. Remove and Rename delete from the index named `IndexName`; Create and Write update through `IndexPath`. Either way the URI is `getURIPath` of the watched path plus the name |
| Watcher.ReplayAppend | index.go:143-158 | replaying two queues in turn equals replaying their concatenation, so arrival order is kept |
| Watcher.ReplayCount | index.go:143-158 | replay issues exactly one action per event that acts |
| Watcher.RepeatedWrites | index.go:150-153 | n queued writes to one watched file give n updates, not one |
| Watcher.Step | index.go:137-160 | one step conserves events: what it issues plus the replay of its queue equals the replay of the old queue plus the new raw event. A raw event issues nothing and grows the queue by one; a timer fire empties the queue |
| Watcher.RunReplaysEverything | index.go:135-161 | over any input sequence, the actions issued plus the replay of what is still queued equal the replay of the initial queue plus every raw event, in order |
| Watcher.RunEndsEmpty | index.go:159 | after a final timer fire the queue is empty |
| Watcher.BurstThenTimer | index.go:137-160 | a burst of events followed by one timer fire issues the replay of the burst and ends with an empty queue |
| Response.ToInt64 | index.go:282 | the unsigned total converted to a 64-bit int is congruent to it modulo 2^64, and equal below 2^63 |
| Response.ConvertHit | index.go:286-325 | a hit converts iff title, path, body, topic and keyword are all strings. The score, title, path and body are copied. Topics and keywords are their fields split at spaces. Authors are the `author` field split at spaces when it is a string, and empty otherwise |
| Response.StoredHitConverts | index.go:286-325 | a stored record converts back to its title, path and body, its topic and keyword fields split at spaces, and no authors |
| Response.ConvertHitNamesFirstBadField | index.go:291-319 | the error names the first of title, path, body, topics and keywords that is not a string |
| Response.CreateResponseData | index.go:279-329 | total, max score, page offset and time are carried. Success gives one converted entry per hit, in order. Failure stops at the first bad hit, keeping the entries converted before it and returning that hit's error |
| Response.StoredFields | index.go:21-28 | a record is stored with string fields under every key the response reads, and with no `author` key |
| Response.IndexedPageRoundTrip | index.go:291-323 | a record built from a page and read back converts. Its title, path and body are unchanged, its non-empty topic and keyword lists come back sorted, and its authors come back empty |
| Handlers.StripRequestRouting | handlers.go:61-87 | the five refusals are tried in order: relative request, route without trailing `/`, route without leading `/`, route longer than path, mismatch. On success the route minus its last `/` followed by the result is the path, and the result starts with `/` |
| Handlers.StripMounted | handlers.go:84-86 | stripping undoes mounting a `/`-path under a well-formed route |
| Handlers.StripRequestRoutingExamples | handlers_test.go:11-44 | the six test cases give the expected path or error |
| Handlers.DefaultIfRoot | handlers.go:116-119 | an empty path and `/` become the default page; every other path is kept |
| Handlers.MarkdownPath | handlers.go:116-124 | the normalised path ends in `.md`: the default-substituted path itself when it already does, else that path plus `.md` |
| Handlers.MarkdownPathIdempotent | handlers.go:121-124 | normalising twice equals normalising once |
| Handlers.FirstRestrictedSuffix | handlers.go:180-188 | none iff the path ends with no restricted suffix; otherwise it is the first suffix, in configuration order, that it ends with |
| Handlers.ServeRaw | handlers.go:175-196 | after routing, the raw handler refuses iff the default-substituted path ends with a restricted suffix. Otherwise it serves exactly what was read, or answers 404 with the read error |
| Handlers.RawHandlerAsWritten | handlers.go:164-173 | the raw handler as written crashes iff routing fails |
| Handlers.RawHandler | handlers.go:164-196 | refuses, always with "Request not allowed", iff routing fails or a restricted suffix matches. Crashes only on an empty path or route. Never renders. Serves exactly what was read for a routed, unrestricted path, and answers 404 with the read error when reading fails |
| Handlers.RawHandlerRepairs | handlers.go:168-173 | the written and intended raw handlers differ exactly on misrouted requests: crash against 403 |
| Handlers.MarkdownHandlerAsWritten | handlers.go:102-145 | the markdown handler as written crashes on an empty path or route, on a misrouted request, on a metadata line that crashes the parser, and on a loaded page with a restricted topic. A read error is a 404 with its text, a load error a 404 with the loader's message, and any other loaded page is rendered with its keywords, topics and rendered body |
| Handlers.MarkdownHandler | handlers.go:102-145 | a misrouted request is refused with "Request not allowed". A read error is a 404 with its text, and a load error a 404 with the loader's message. A loaded page with a restricted topic is refused. Any other loaded page is rendered with its keywords, topics and rendered body. Crashes happen only on an empty path or route, or on a metadata line that crashes the parser |
| Handlers.MarkdownHandlerRepairs | handlers.go:109-138 | the written and intended markdown handlers differ only where the written one crashes and the intended one refuses, including every misrouted request |
| Handlers.MarkdownRoutingCrash | handlers.go:109-114 | `/other/page` under the route `/wiki/` crashes the written handler and is refused by the intended one |
| Handlers.MarkdownRestrictedCrash | handlers.go:134-138 | a loaded page with a restricted topic crashes the written handler and is refused by the intended one |
| Handlers.MarkdownRestrictedExample | handlers.go:134-138 | `/wiki/page` with the one-topic page and `x` restricted crashes the written handler |
| Errors.CodesArePowers | error.go:53-71 | there are 17 codes and the i-th is 2^i |
| Errors.CodesDistinct | error.go:53-71 | the codes are strictly increasing, hence distinct |
| Errors.ErrMsgComplete | error.go:74-92 | every declared code has a non-empty template and the table has no other key |
| Errors.Template | error.go:74-92 | a code has a non-empty template iff it is one of the 17 declared codes |
| Errors.ErrorMessage | error.go:19-50 | the message is verbatim iff the code is `ErrUpgradedError`, and then it is the wrapped error's own text. It is the unformatted template iff no optional field is set. Otherwise it is the code's template with a non-empty argument list |
| Errors.ErrorMessageSelects | error.go:20-48 | outside upgraded errors, the arguments are the set fields in field order, except that exactly two set fields one of which is the inner error give the inner error alone |
| Errors.ErrorArgsOrdered | error.go:23-46 | the arguments are always an order-preserving subsequence of path, type, value, inner error |
| Errors.PathDroppedBesideInner | error.go:27-40 | with only path and inner error set, the path is dropped |
| Errors.UpgradedIsVerbatim | error.go:21-22 | an upgraded error reports the wrapped message whatever its other fields hold |
| Errors.UpgradeRoundTrip | error.go:14-22 | upgrading an error and asking for its message gives the wrapped message back |

## Left out

- Files, I/O and the OS are left out. `os.Open`, `bufio` and `ioutil.ReadFile` become an in-memory byte string or a `read` function, whose error text is answered as the 404 message. So the "first line error" and "secont line error" branches of `LoadPage` (read errors other than end of file) cannot occur in the model.
- Markdown rendering (blackfriday) is a foreign library. `cleanupMarkdown`, `bodyParseMarkdown` and `tocParseMarkdown` are the parameters `cleanup` and `render`. The table of contents is not modelled.
- The search engine (bleve) is a foreign engine. `createIndex`, `buildIndexMapping`, `processUpdate`, `processDelete`, `ListField` and search.go are left out. The watcher only says which delete or update it issues. Scores are opaque `real`s and durations opaque `int`s.
- Field names: the engine is assumed to store a record under the names in its JSON tags. The author tag is malformed (`json: "author"`), so that field is taken to be stored as `Authors`.
- Real time and concurrency in the watcher are left out: fsnotify, the idle timer, the `select` loop, the fatal error channel, `openWatchers` and the index locks. Only the queue and its replay are modelled.
- `walkForIndexing` is a directory traversal, so it is I/O.
- HTTP plumbing is left out:
  - writing the response;
  - template execution and its 500 reply;
  - the log lines;
  - handler.go, middleware.go, config.go, git.go, main.go, goki.go and types.go.
- `FindExtension` is unused by the code.
- Newer parser API. `generateWikiFromFile` and the markdown handler call names of a newer parser (`PageMetadata`, `MatchedTopic`, a three-value `ListMeta`, `Title`, `FileStats`). They are modelled over the parser shown. That parser never sets a title or records authors, so the title is "" and the authors are empty. The page's `Page`/`PageUnparsed` fields are one body field. The tests written for the newer parser (`isTitle`, ATX titles, authors, lower-casing, a body without its title) are not modelled.
- Unicode: `bytes.TrimSpace` would also strip multi-byte Unicode spaces; only the ASCII ones are modelled.
- Formatting: `fmt.Sprintf` itself is not modelled. An error message is a template plus its argument list. The untyped value is a type parameter and the inner error is its message.
- Metadata.LoadPage: its own contract states only the no-newline error and the facts about a loaded page. The full outcome is stated by Metadata.LoadPageByLines and Metadata.LoadPageFails.

- Handlers.StripRequestRouting: requires a non-empty route, and the handlers crash on an empty route. For a relative path under an empty route, handlers.go:62-64 would refuse before the route is indexed at handlers.go:66-67. net/http does not register an empty pattern, so no handler sees an empty route.

## Findings

| source | as written | input that shows it | evidently intended | confidence | as-written member | corrected member |
|---|---|---|---|---|---|---|
| metadata.go:72-77 | the "suppress any double dashes" loop removes one dash of a `--` and then moves past the survivor, so a run of three or more dashes keeps a `--` | `checkMatch("topic : l m   no", "topic")` stores `l-m--no` | every run of dashes becomes one dash, `l-m-no`, as the loop's own comment "suppress any double dashes" says. metadata_test.go:157 expects the same, but it tests the newer parser | not executed | Metadata.CheckMatchLeavesDoubleDash | Metadata.CheckMatchIntended |
| handlers.go:109-114 | after a routing error the log line reads the path of the nil request that was returned, which panics instead of answering 403 | route `/wiki/`, request `/other/page` | reply 403 "Request not allowed" | not executed | Handlers.MarkdownRoutingCrash | Handlers.MarkdownHandler |
| handlers.go:168-173 | the raw handler has the same nil-request log line after a routing error | route `/wiki/`, request `/other/page` | reply 403 "Request not allowed" | not executed | Handlers.RawHandlerRepairs | Handlers.RawHandler |
| handlers.go:134-138 | a page with a restricted topic is refused with `err.Error()` while `err` is nil after a successful load, which panics | route `/wiki/`, request `/wiki/page`, file `topic=x` / `T` / `=`, restricted `x` | reply 403 | not executed | Handlers.MarkdownRestrictedExample | Handlers.MarkdownHandler |

The parser keeps the slugs as written: `Metadata.LoadPage` and the index and handler models built on it store them through `Metadata.CheckMatch`. `Metadata.CheckMatchIntended` is the corrected loop, and `Metadata.CheckMatchAgrees` shows that the two give the same result on every value without three dashes or spaces in a row. The handler models `Handlers.RawHandler` and `Handlers.MarkdownHandler` correct only the nil dereferences: they answer 403 where the written handlers, `Handlers.RawHandlerAsWritten` and `Handlers.MarkdownHandlerAsWritten`, crash.
