# Search gateway core, modelled in Dafny

This project models the decision logic of the firefox-omnisearch gateway: a local HTTP service that
takes a search query typed in the browser's address bar and picks a search engine. It uses an
optional leading keyword to do so (`g cats` goes to the engine with keyword `g`). It then either
redirects to that engine's search URL or fetches and rewrites that engine's suggestions. All of it
lives in `server.py`. Once files, HTTP and JSON text are stripped away, what remains is pure string
and sequence manipulation. Every operation below is a pure function over immutable datatypes.

| file | module | models |
|---|---|---|
| `wrappers.dfy` | `Wrappers` | `Option` (Python's `None`-or-value) and `Result` (a value or a raised exception) |
| `text.dfy` | `Text` | `str.split(' ')`, `' '.join(...)`, first index of a character |
| `json.dfy` | `Json` | an already-parsed JSON value and Python's truth test on it |
| `url_encoding.dfy` | `UrlEncoding` | UTF-8, `quote_plus`, `urlencode`, `'{}?{}'.format(base, ...)`, and a reference decoder |
| `templates.dfy` | `Templates` | `template.format(query=q)` for the `{query}` field, applied to a parameter mapping |
| `search_engine.dfy` | `SearchEngine` | class `SearchEngine`: definition parsing, search/suggestions URLs, the built-in suggestions parser |
| `router.dfy` | `Router` | class `SearchEngineRouter`: loading definition files, query resolution, `get_search_url`, `get_suggestions` |

Resolution is stated once, as `Router.Resolve(engines, default, q)`. It returns the engine key, the
text handed to the engine, and whether the keyword is put back in front of the suggestions. The
router's two entry points are written the way the source writes them, with `split(' ')` and
`' '.join`. Two lemmas prove that each one is `Resolve` followed by the chosen engine's own operation.

The outbound HTTP fetch is a parameter `fetch: string -> Result<Response, Error>`; its failure propagates. The directory listing is a
sequence of `(name, parsed definition)` pairs in whatever order the listing gave. The loading lemmas
hold for every order.

Some behaviour of `server.py` that the model keeps exactly:
- `query.split(' ')` splits on the single character `' '`, so runs of spaces give empty pieces and
  a tab is not a separator.
- `"g "` resolves to engine `g` with the empty text: its split is `["g", ""]`, which has two elements.
- With zero definition files `default_search_engine` stays `None`. Building the router still
  succeeds, and every request then raises `KeyError` (here `UnknownEngine`).
- Nothing checks that a definition's URLs and templates are non-empty.
- The query text is substituted into the templates as it is.
- `'{}?{}'.format(url, ...)` appends `?` whatever the base URL holds.

## Model

| member | source | states |
|---|---|---|
| Text.Split | server.py:86 | `q.split(' ')` never returns an empty list, no piece holds a space, and joining the pieces with `' '` gives back `q` |
| Text.SplitSingle | server.py:86-88 | `len(q.split(' ')) < 2` exactly when `q` has no space, and then the only piece is `q` itself |
| Text.SplitAfterToken | server.py:94 | splitting `token + ' ' + rest` gives `token` first, then the pieces of `rest`, so `' '.join(arguments[1:])` is `rest` exactly |
| Text.TokenUnique | server.py:91-94 | a space-free token followed by a space is determined by the query it starts, and so is the text after it |
| UrlEncoding.UnquoteQuotePlus | server.py:50 | percent-decoding undoes `quote_plus`: the encoded text decodes to the UTF-8 bytes of the original |
| UrlEncoding.QuotePlusAlphabet | server.py:50 | `quote_plus` emits only unreserved characters, `+` and `%`, never the `&`, `=` or `?` that delimit a query string |
| UrlEncoding.QuotePlus | server.py:50 | `quote_plus` of one key or value; specified by `UnquoteQuotePlus` (decoding gives the UTF-8 bytes back) and `QuotePlusAlphabet` (only unreserved characters, `+` and `%` are emitted) |
| UrlEncoding.UrlEncode | server.py:50 | `urlencode` of the parameter pairs, joined by `&`; specified by `UrlEncodeRoundTrip` and `UrlEncodeTextRoundTrip` |
| UrlEncoding.UrlEncodeRoundTrip | server.py:50 | decoding the `urlencode` output recovers the UTF-8 bytes of every key and value, in order |
| UrlEncoding.Utf8RoundTrip | server.py:50 | UTF-8 decoding inverts the encoding `quote_plus` applies first, so equal bytes mean equal text |
| UrlEncoding.Utf8DecodeBytes | server.py:50 | the reference decoder is strict, like Python's: a byte string it accepts is exactly the encoding of the text it returns, so decoding and `Utf8Bytes` are inverse to each other and every overlong form (such as `C0 80`) is rejected |
| UrlEncoding.UrlEncodeTextRoundTrip | server.py:50 | decoding the `urlencode` output, then reading it as UTF-8, gives back every key and value as text, in order |
| UrlEncoding.BuildUrl | server.py:60 | `'{}?{}'.format(base, urlencode(params))`; specified by `BuildUrlRoundTrip` |
| UrlEncoding.BuildUrlRoundTrip | server.py:60 | the URL is the base, then `?` at position `len(base)` whatever the base holds, then the encoded pairs, and the text after the `?` decodes back to the pairs; the first `?` of the URL is the one after the base exactly when the base has none |
| Templates.Substitute | server.py:48 | `template.format(query=q)`; specified by `SubstituteSplice`, `SubstituteLiteral` and `SubstituteOnce` |
| Templates.Expand | server.py:46-48 | the expanded parameters have the template's keys in the template's order, each value being its template with `{query}` replaced by the query |
| Templates.SubstituteSplice | server.py:48 | substitution splits at any placeholder: the text before it and the text after it are substituted independently, with the query in between |
| Templates.SubstituteLiteral | server.py:58 | a template with no placeholder is kept as it is; in Python this holds for templates without braces (`format` rejects a stray `}` and turns `{{x}}` into `{x}`) |
| Templates.SubstituteOnce | server.py:58 | `pre{query}post` becomes `pre + q + post`, with the query inserted verbatim even when it holds braces |
| Json.Truthy | server.py:28 | Python's truth test on the parser flag: `None`, `False`, `0`, `""`, `[]` and `{}` are false; specified through `ParseDefinition`, which fails with `NotImplementedError` exactly for a truthy flag |
| SearchEngine.ParseDefinition | server.py:20-34 | construction succeeds exactly when every key is present and `suggestions.parser` is falsy, and then copies the URLs and templates; a missing key is a `KeyError`; a truthy parser flag is the `NotImplementedError` |
| SearchEngine.SearchUrl | server.py:55-60 | `get_search_url(q)`; specified by `SearchUrlRoundTrip` |
| SearchEngine.SuggestionsUrl | server.py:45-50 | the URL `get_suggestions(q)` fetches: the suggestions URL, `?`, and the expanded suggestions template; specified by `SuggestionsUrlRoundTrip` |
| SearchEngine.SearchUrlRoundTrip | server.py:55-60 | the search URL is the engine's search URL, then `?`, then a query string that decodes to each template key and its substituted value, in template order, as bytes and as text; no condition on the base URL |
| SearchEngine.SuggestionsUrlRoundTrip | server.py:45-50 | the same round trip for the URL the suggestions are fetched from: the suggestions URL, `?`, and the query string |
| SearchEngine.Suggestions | server.py:45-53 | a failed fetch propagates its error; otherwise the fetched body goes through the built-in parser: unchanged with prepend off; with it on, success exactly when the body decodes, `MalformedResponse` when it does not, and the success `Prefixed` |
| SearchEngine.DefaultSuggestionsParser | server.py:36-43 | with prepend off the response is returned unchanged; with it on, element 0 and every completion get `keyword + " "` in front, with the same count and order and the later elements untouched; an undecodable body fails |
| SearchEngine.PrependRoundTrip | server.py:38-41 | stripping `keyword + " "` from the prefixed payload gives back the backend's payload exactly |
| Router.Keyword | server.py:74-78 | the keyword derived from a file name; specified by `KeywordOfListedName` |
| Router.KeywordOfListedName | server.py:74-77 | a listed file name is its keyword, `.default` when it is marked, and `.json`; the keyword is never empty |
| Router.LoadFile | server.py:74-83 | one iteration of the loading loop; specified, folded over the file list, by the `Load*` lemmas below |
| Router.Load | server.py:71-83 | `_load_search_engines` over the files in listing order; specified by `LoadFailure`, `LoadKeywords`, `LoadLastWins`, `LoadEngineKeywords`, `LoadReady`, `LoadDefaultMarked` and `LoadDefaultFirst` |
| Router.LoadFailure | server.py:82-83 | loading fails exactly when some definition fails to parse, and with the error of the first such file in listing order |
| Router.LoadKeywords | server.py:73-83 | the registered keywords are exactly the keywords derived from the file names |
| Router.KeywordsSnoc | server.py:73-74 | the keywords of a file list are those of all but its last file, plus the last file's |
| Router.LoadLastWins | server.py:83 | the engine under a keyword is the one defined by the last file with that keyword |
| Router.LoadEngineKeywords | server.py:83 | every stored engine carries the keyword it is stored under (`SearchEngine(keyword, ...)`) |
| Router.LoadReady | server.py:68-80 | with no files there is no default; after any file the default is set and names a registered engine |
| Router.LoadDefaultMarked | server.py:76-78 | the default is the keyword of the last file marked `.default` |
| Router.LoadDefaultFirst | server.py:79-80 | with no marked file, the default is the keyword of the first file |
| Router.Resolve | server.py:85-105 | a keyword engine is chosen only for `token + " " + rest` with `token` a registered, space-free keyword, and then gets `rest` with prepend on; every other query goes whole to the default with prepend off |
| Router.ResolveNoSpace | server.py:86-89 | a query without a space goes whole to the default engine, prepend off |
| Router.ResolveKeyword | server.py:91-94 | a registered keyword and a space select that engine with the rest verbatim, including leading spaces and the empty rest, prepend on |
| Router.ResolveUnknownWord | server.py:91-92 | an unregistered first word sends the whole query, that word included, to the default engine, prepend off |
| Router.SplitResolves | server.py:97-105 | the `split(' ')` branch conditions and `' '.join(arguments[1:])` compute exactly `Resolve` |
| Router.GetSearchUrl | server.py:96-105 | `get_search_url`, written with `split(' ')` as the source writes it; specified by `GetSearchUrlResolves` |
| Router.GetSuggestions | server.py:85-94 | `get_suggestions`, written the same way; specified by `GetSuggestionsResolves` |
| Router.GetSearchUrlResolves | server.py:96-105 | `get_search_url` is `Resolve`, then the chosen engine's search URL for the resolved text |
| Router.GetSuggestionsResolves | server.py:85-94 | `get_suggestions` is `Resolve`, then the chosen engine's suggestions for the resolved text, prepending exactly when `Resolve` says so |
| Router.DefaultEngine | server.py:89-103 | `self.search_engines[self.default_search_engine]`, a `KeyError` when the default is unset; specified by `LoadedDefaultEngine` |
| Router.LoadedDefaultEngine | server.py:68-83 | for a loaded registry, the default lookup raises exactly when no definition file was found, and otherwise gives the engine whose keyword is the default |
| Router.ReadyAnswers | server.py:99-103 | a registry whose default is registered answers every search query |
| Router.KeywordEchoRestored | server.py:39 | when the backend echoes the text it was sent, the rewritten echo is the user's whole query again |
| Router.LoadedEchoRestored | server.py:39 | the same for every loaded registry, whose engines always carry their own keyword |

## Left out

- The HTTP server, request handler, response headers and `main`: these are I/O plumbing and process startup.
- Thread-per-request serving: it adds concurrency only, and the registry is read-only after loading.
- The outbound `requests.get` call: it is a network call, modelled as the parameter `fetch: string -> Result<Response, Error>`. A raised exception (connection error, timeout) is a `Failure` that propagates out of `get_suggestions` unchanged. The User-Agent header and HTTP status codes are not modelled.
- `glob.glob`, `os.path.join`/`basename` and `open`: these are filesystem access. A file is given by its base name and parsed content.
- JSON text parsing and serialisation, and the UTF-8 encoding of the response body. A definition is an already-parsed record whose fields are `None` when the key is absent. A suggestions body is either a decoded payload (echo string, completion strings, later elements) or undecodable bytes.
- SearchEngine.DefaultSuggestionsParser: a payload whose element 0 or element 1 entries are not strings is treated as undecodable, although Python would format them with `str()`. An element 1 that is a string would be iterated character by character in Python, and one that is a JSON object would be iterated over its keys (`["te", {"test": 1}]` with keyword `g` gives `["g te", ["g test"]]`). Neither is modelled: `Payload.completions` holds a list of strings, so such a body is undecodable and the model answers `MalformedResponse`.
- SearchEngine.DefaultSuggestionsParser: it models the Python 3.8 behaviour. From Python 3.9 on, `json.loads(..., encoding=...)` raises a `TypeError`, so the prepend path always fails there.
- Templates.Substitute: only the `{query}` replacement field is modelled. Other replacement fields, format specs and `{{`/`}}` escapes are not.
- UrlEncoding.QuotePlus: this is an abstraction of the library. It covers the always-safe set (letters, digits, `_.-~`), `+` for a space, and upper-case `%XX` of the UTF-8 bytes for everything else. A Dafny string holds Unicode scalar values only, so a lone surrogate cannot be expressed. Python's `json.loads` keeps one from an escape such as `\ud800`, so a template `"\ud800{query}"` loads without error, and every request to that engine then raises `UnicodeEncodeError` in `urlencode` (server.py:50 and 60). `QuotePlus` and `Utf8Bytes` are total on the strings the model has.
- SearchEngine.ParseDefinition: a definition whose values have the wrong JSON type is outside the model, because the typed `Section` holds only string URLs and string templates and reads `None` as an absent key. In `server.py` such a definition loads without error, and the failure comes later or never. A non-string template value (`"params": {"n": 10}`) makes `params[key].format(query=query)` raise `AttributeError` on every request to that engine (server.py:48 and 58). A `null` or numeric `url` is kept and formatted into the URL as `None?...` or `5?...` (server.py:50 and 60); the model would report `MissingKey` for the `null`.
- UrlEncoding.DecodeQuery: this is the reference inverse used for the round trip, not a model of `parse_qs`. For example, it keeps blank values.
- JSON numbers are integers; floating-point values and their truthiness are not modelled.
- Router.LoadDefaultMarked and Router.LoadDefaultFirst assume names the `*.json` pattern can list (no leading dot, ending in `.json`). For other names an empty keyword is possible, and Python's `not default` test then treats the empty default as unset. `Load` itself models that case.
- Duplicate keys inside a definition's parameter object are not modelled. The templates are an already-deduplicated ordered list of pairs.
- SearchEngine.SearchUrlRoundTrip: a base URL with its own `?` (such as `https://x/search?client=ff`) gets a second `?`. The text after the base still decodes to the pairs, but a parser that splits the URL at its first `?` would not see them. The model states this and does not repair it.
- SearchEngine.SuggestionsUrlRoundTrip: the same holds for a suggestions base URL with its own `?`.
- UrlEncoding.BuildUrlRoundTrip: the first `?` of the URL marks the query string only when the base has none; with one, the first `?` lies inside the base.
