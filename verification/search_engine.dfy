/** One search engine: parsing its definition, building its search and
    suggestions URLs, and the built-in suggestions parser (server.py,
    class `SearchEngine`). */
module SearchEngine {
  import opened Wrappers
  import opened Json
  import Templates
  import UrlEncoding

  /** One section (`search` or `suggestions`) of a parsed definition file.
      A field is `None` when the key is absent from the file. */
  datatype Section = Section(
    url: Option<string>,
    params: Option<seq<(string, string)>>,
    parser: Option<Json>)

  /** A parsed definition file. */
  datatype Definition = Definition(search: Option<Section>, suggestions: Option<Section>)

  /** The exceptions the core raises. */
  datatype Error =
    | MissingKey(key: string)        // KeyError while reading a definition
    | CustomParserNotImplemented     // NotImplementedError from `_load_suggestions_parser`
    | MalformedResponse              // the suggestions payload is not `[str, [str, ...], ...]`
    | UnknownEngine                  // KeyError looking up an unset default engine
    | FetchFailed                    // the HTTP client raised (connection error and the like)

  /** A constructed engine. Its suggestions parser is always the built-in
      one: asking for any other fails construction. */
  datatype Engine = Engine(
    keyword: string,
    searchUrl: string,
    searchParams: seq<(string, string)>,
    suggestionsUrl: string,
    suggestionsParams: seq<(string, string)>)

  /** Every key `_parse_definition` reads is present. */
  predicate Complete(d: Definition)
  {
    && d.search.Some? && d.search.value.url.Some? && d.search.value.params.Some?
    && d.suggestions.Some? && d.suggestions.value.url.Some?
    && d.suggestions.value.params.Some? && d.suggestions.value.parser.Some?
  }

  /** `SearchEngine(keyword, definition)`: the keys are read in the order
      search.url, search.params, suggestions.url, suggestions.params,
      suggestions.parser, and the first missing one raises. A truthy
      `parser` raises as well. */
  function ParseDefinition(keyword: string, d: Definition): (r: Result<Engine, Error>)
    ensures r.Success? <==> Complete(d) && !Truthy(d.suggestions.value.parser.value)
    ensures !Complete(d) ==> r.Failure? && r.error.MissingKey?
    ensures Complete(d) && Truthy(d.suggestions.value.parser.value)
            ==> r == Failure(CustomParserNotImplemented)
    ensures r.Success? ==>
              && r.value.keyword == keyword
              && r.value.searchUrl == d.search.value.url.value
              && r.value.searchParams == d.search.value.params.value
              && r.value.suggestionsUrl == d.suggestions.value.url.value
              && r.value.suggestionsParams == d.suggestions.value.params.value
  {
    if d.search.None? then Failure(MissingKey("search"))
    else if d.search.value.url.None? then Failure(MissingKey("url"))
    else if d.search.value.params.None? then Failure(MissingKey("params"))
    else if d.suggestions.None? then Failure(MissingKey("suggestions"))
    else if d.suggestions.value.url.None? then Failure(MissingKey("url"))
    else if d.suggestions.value.params.None? then Failure(MissingKey("params"))
    else if d.suggestions.value.parser.None? then Failure(MissingKey("parser"))
    else if Truthy(d.suggestions.value.parser.value) then Failure(CustomParserNotImplemented)
    else
      Success(Engine(keyword, d.search.value.url.value, d.search.value.params.value,
                     d.suggestions.value.url.value, d.suggestions.value.params.value))
  }

  // ---------------------------------------------------------------------
  // URLs

  /** `get_search_url(q)`. */
  function SearchUrl(e: Engine, q: string): string
  {
    UrlEncoding.BuildUrl(e.searchUrl, Templates.Expand(e.searchParams, q))
  }

  /** The URL `get_suggestions(q)` fetches. */
  function SuggestionsUrl(e: Engine, q: string): string
  {
    UrlEncoding.BuildUrl(e.suggestionsUrl, Templates.Expand(e.suggestionsParams, q))
  }

  /** A URL built from a base and a parameter template is the base, `?`,
      and a query string that decodes, pair by pair and in the
      template's order, to each template key and its template with the query
      substituted. */
  lemma ExpandedUrlRoundTrip(base: string, params: seq<(string, string)>, q: string)
    ensures UrlEncoding.BuildUrl(base, Templates.Expand(params, q))[..|base|] == base
    ensures var url := UrlEncoding.BuildUrl(base, Templates.Expand(params, q));
              |url| > |base| && url[|base|] == '?'
    ensures var decoded := UrlEncoding.DecodeQuery(
                             UrlEncoding.BuildUrl(base, Templates.Expand(params, q))[|base| + 1..]);
      && decoded.Some?
      && |decoded.value| == |params|
      && (forall i :: 0 <= i < |params| ==>
           decoded.value[i] == (UrlEncoding.Utf8Bytes(params[i].0),
                                UrlEncoding.Utf8Bytes(Templates.Substitute(params[i].1, q))))
      && UrlEncoding.PairsText(decoded.value) == Some(Templates.Expand(params, q))
  {
    var expanded := Templates.Expand(params, q);
    UrlEncoding.BuildUrlRoundTrip(base, expanded);
    UrlEncoding.PairsTextBytes(expanded);
  }

  /** The search URL decodes back to the substituted search template, both
      as bytes and, read as UTF-8, as text. */
  lemma SearchUrlRoundTrip(e: Engine, q: string)
    ensures SearchUrl(e, q)[..|e.searchUrl|] == e.searchUrl
    ensures |SearchUrl(e, q)| > |e.searchUrl| && SearchUrl(e, q)[|e.searchUrl|] == '?'
    ensures var decoded := UrlEncoding.DecodeQuery(SearchUrl(e, q)[|e.searchUrl| + 1..]);
      && decoded.Some?
      && |decoded.value| == |e.searchParams|
      && (forall i :: 0 <= i < |e.searchParams| ==>
           decoded.value[i] == (UrlEncoding.Utf8Bytes(e.searchParams[i].0),
                                UrlEncoding.Utf8Bytes(Templates.Substitute(e.searchParams[i].1, q))))
      && UrlEncoding.PairsText(decoded.value) == Some(Templates.Expand(e.searchParams, q))
  {
    ExpandedUrlRoundTrip(e.searchUrl, e.searchParams, q);
  }

  /** The suggestions URL decodes back to the substituted suggestions
      template. */
  lemma SuggestionsUrlRoundTrip(e: Engine, q: string)
    ensures SuggestionsUrl(e, q)[..|e.suggestionsUrl|] == e.suggestionsUrl
    ensures |SuggestionsUrl(e, q)| > |e.suggestionsUrl| && SuggestionsUrl(e, q)[|e.suggestionsUrl|] == '?'
    ensures var decoded := UrlEncoding.DecodeQuery(SuggestionsUrl(e, q)[|e.suggestionsUrl| + 1..]);
      && decoded.Some?
      && |decoded.value| == |e.suggestionsParams|
      && (forall i :: 0 <= i < |e.suggestionsParams| ==>
           decoded.value[i] == (UrlEncoding.Utf8Bytes(e.suggestionsParams[i].0),
                                UrlEncoding.Utf8Bytes(Templates.Substitute(e.suggestionsParams[i].1, q))))
      && UrlEncoding.PairsText(decoded.value) == Some(Templates.Expand(e.suggestionsParams, q))
  {
    ExpandedUrlRoundTrip(e.suggestionsUrl, e.suggestionsParams, q);
  }

  // ---------------------------------------------------------------------
  // Suggestions

  /** A suggestions payload in the OpenSearch suggestions format: the echoed
      query, the completions, and whatever elements follow them. */
  datatype Payload = Payload(echo: string, completions: seq<string>, extra: seq<Json>)

  /** The body the suggestions backend answered with. */
  datatype Response = Decoded(payload: Payload) | Undecodable(raw: seq<UrlEncoding.byte>)

  /** `'{} {}'.format(keyword, s)`. */
  function WithKeyword(keyword: string, s: string): string
  {
    keyword + " " + s
  }

  function PrefixAll(keyword: string, items: seq<string>): (r: seq<string>)
    ensures |r| == |items|
    ensures forall i :: 0 <= i < |items| ==> r[i] == WithKeyword(keyword, items[i])
  {
    if |items| == 0 then [] else [WithKeyword(keyword, items[0])] + PrefixAll(keyword, items[1..])
  }

  /** `p'` is `p` with the keyword and a space in front of the echoed query
      and of every completion, in the same order, the rest unchanged. */
  ghost predicate Prefixed(keyword: string, p: Payload, p': Payload)
  {
    && p'.echo == keyword + " " + p.echo
    && |p'.completions| == |p.completions|
    && (forall i :: 0 <= i < |p.completions| ==> p'.completions[i] == keyword + " " + p.completions[i])
    && p'.extra == p.extra
  }

  /** `_default_suggestions_parser`: the body unchanged when the keyword is
      not to be prepended; otherwise the echoed query and every completion
      prefixed with the keyword and a space, everything else kept. */
  function DefaultSuggestionsParser(keyword: string, response: Response, prepend: bool)
    : (r: Result<Response, Error>)
    ensures !prepend ==> r == Success(response)
    ensures prepend ==> (r.Success? <==> response.Decoded?)
    ensures prepend && response.Undecodable? ==> r == Failure(MalformedResponse)
    ensures prepend && r.Success? ==>
              r.value.Decoded? && Prefixed(keyword, response.payload, r.value.payload)
  {
    if !prepend then Success(response)
    else match response
      case Undecodable(_) => Failure(MalformedResponse)
      case Decoded(p) =>
        Success(Decoded(Payload(WithKeyword(keyword, p.echo), PrefixAll(keyword, p.completions), p.extra)))
  }

  /** `s` without a leading `keyword + " "`, if it has one. */
  function StripKeyword(keyword: string, s: string): Option<string>
  {
    var n := |keyword| + 1;
    if |s| >= n && s[..n] == keyword + " " then Some(s[n..]) else None
  }

  function StripAll(keyword: string, items: seq<string>): Option<seq<string>>
  {
    if |items| == 0 then Some([])
    else match (StripKeyword(keyword, items[0]), StripAll(keyword, items[1..]))
      case (Some(s), Some(rest)) => Some([s] + rest)
      case _ => None
  }

  /** Removing the keyword prefix from the echoed query and every completion. */
  function StripPayload(keyword: string, p: Payload): Option<Payload>
  {
    match (StripKeyword(keyword, p.echo), StripAll(keyword, p.completions))
    case (Some(echo), Some(completions)) => Some(Payload(echo, completions, p.extra))
    case _ => None
  }

  lemma StripWithKeyword(keyword: string, s: string)
    ensures StripKeyword(keyword, WithKeyword(keyword, s)) == Some(s)
  {
    var t := WithKeyword(keyword, s);
    assert t[..|keyword| + 1] == keyword + " ";
    assert t[|keyword| + 1..] == s;
  }

  lemma {:induction false} StripAllPrefixAll(keyword: string, items: seq<string>)
    ensures StripAll(keyword, PrefixAll(keyword, items)) == Some(items)
  {
    if |items| > 0 {
      var r := PrefixAll(keyword, items);
      assert r[1..] == PrefixAll(keyword, items[1..]);
      StripAllPrefixAll(keyword, items[1..]);
      StripWithKeyword(keyword, items[0]);
      assert r[0] == WithKeyword(keyword, items[0]);
      assert StripKeyword(keyword, r[0]) == Some(items[0]);
      assert StripAll(keyword, r[1..]) == Some(items[1..]);
      assert items == [items[0]] + items[1..];
    }
  }

  /** Prepending is undone by stripping: the normalised payload carries
      exactly the backend's suggestions, in their order, behind the keyword. */
  lemma PrependRoundTrip(keyword: string, p: Payload)
    ensures DefaultSuggestionsParser(keyword, Decoded(p), true).Success?
    ensures StripPayload(keyword, DefaultSuggestionsParser(keyword, Decoded(p), true).value.payload)
            == Some(p)
  {
    StripAllPrefixAll(keyword, p.completions);
    StripWithKeyword(keyword, p.echo);
  }

  /** `get_suggestions(q, prepend)`: fetch the suggestions URL (the fetch is
      a parameter standing for the HTTP client, whose failure propagates) and
      parse the answer. */
  function Suggestions(e: Engine, q: string, prepend: bool, fetch: string -> Result<Response, Error>)
    : (r: Result<Response, Error>)
    ensures fetch(SuggestionsUrl(e, q)).Failure? ==> r == fetch(SuggestionsUrl(e, q)).PropagateFailure()
    ensures fetch(SuggestionsUrl(e, q)).Success? && !prepend ==> r == fetch(SuggestionsUrl(e, q))
    ensures fetch(SuggestionsUrl(e, q)).Success? && prepend ==>
              (r.Success? <==> fetch(SuggestionsUrl(e, q)).value.Decoded?)
    ensures fetch(SuggestionsUrl(e, q)).Success? && prepend && fetch(SuggestionsUrl(e, q)).value.Undecodable? ==>
              r == Failure(MalformedResponse)
    ensures fetch(SuggestionsUrl(e, q)).Success? && prepend && r.Success? ==>
              var body := fetch(SuggestionsUrl(e, q)).value;
              body.Decoded? && r.value.Decoded? && Prefixed(e.keyword, body.payload, r.value.payload)
  {
    var body :- fetch(SuggestionsUrl(e, q));
    DefaultSuggestionsParser(e.keyword, body, prepend)
  }
}
