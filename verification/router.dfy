/** The engine registry (server.py, class `SearchEngineRouter`): loading the
    definition files, and sending each query to an engine. */
module Router {
  import opened Wrappers
  import opened Text
  import opened SearchEngine

  /** The loaded engines by keyword, and the default engine's keyword
      (`None` until a file has been loaded). */
  datatype Registry = Registry(engines: map<string, Engine>, default: Option<string>)

  /** One definition file: its base name and its parsed content. The
      directory listing itself is not modelled; files come in whatever order
      the listing gave. */
  datatype DefinitionFile = DefinitionFile(name: string, definition: Definition)

  const JsonSuffix: string := ".json"
  const DefaultSuffix: string := ".default"

  /** `name[:-5]`: the name without its `.json` extension. */
  function Stem(name: string): string
  {
    if |name| >= |JsonSuffix| then name[..|name| - |JsonSuffix|] else ""
  }

  /** The stem ends in `.default` (`keyword[-8:] == '.default'`). */
  predicate MarkedDefault(name: string)
  {
    var stem := Stem(name);
    |stem| >= |DefaultSuffix| && stem[|stem| - |DefaultSuffix|..] == DefaultSuffix
  }

  /** The engine's keyword: the stem, less a trailing `.default`. */
  function Keyword(name: string): string
  {
    var stem := Stem(name);
    if MarkedDefault(name) then stem[..|stem| - |DefaultSuffix|] else stem
  }

  /** A name the `*.json` pattern can list: it does not start with a dot and
      ends in `.json`. */
  predicate ListedName(name: string)
  {
    |name| > 0 && name[0] != '.' && |name| >= |JsonSuffix| && name[|name| - |JsonSuffix|..] == JsonSuffix
  }

  /** A listed name is its keyword, `.default` when it is marked, and `.json`;
      the keyword is never empty. */
  lemma KeywordOfListedName(name: string)
    requires ListedName(name)
    ensures |Keyword(name)| > 0
    ensures name == Keyword(name) + (if MarkedDefault(name) then DefaultSuffix else "") + JsonSuffix
  {
  }

  /** The engine a file defines. */
  function FileEngine(f: DefinitionFile): Result<Engine, Error>
  {
    ParseDefinition(Keyword(f.name), f.definition)
  }

  /** One iteration of `_load_search_engines`: a marked file becomes the
      default; an unmarked one does when no (truthy) default is set yet; the
      engine is stored under its keyword, replacing an earlier one. A
      definition that cannot be parsed aborts loading. */
  function LoadFile(reg: Registry, f: DefinitionFile): Result<Registry, Error>
  {
    var keyword := Keyword(f.name);
    var default :=
      if MarkedDefault(f.name) then Some(keyword)
      else if reg.default.None? || reg.default.value == "" then Some(keyword)
      else reg.default;
    var engine :- FileEngine(f);
    Success(Registry(reg.engines[keyword := engine], default))
  }

  /** `_load_search_engines` over the files in listing order. */
  function Load(files: seq<DefinitionFile>): Result<Registry, Error>
  {
    if |files| == 0 then Success(Registry(map[], None))
    else
      var reg :- Load(files[..|files| - 1]);
      LoadFile(reg, files[|files| - 1])
  }

  /** The default engine is set and registered. */
  predicate Ready(reg: Registry)
  {
    reg.default.Some? && reg.default.value in reg.engines
  }

  // ---------------------------------------------------------------------
  // Loading

  /** Loading fails exactly when some definition fails, and then with the
      error of the first one that does. */
  lemma {:induction false} LoadFailure(files: seq<DefinitionFile>)
    ensures Load(files).Failure? <==> exists i :: 0 <= i < |files| && FileEngine(files[i]).Failure?
    ensures Load(files).Failure? ==>
              exists i :: && 0 <= i < |files|
                          && FileEngine(files[i]) == Failure(Load(files).error)
                          && forall j :: 0 <= j < i ==> FileEngine(files[j]).Success?
  {
    if |files| > 0 {
      var init := files[..|files| - 1];
      LoadFailure(init);
      assert forall i :: 0 <= i < |init| ==> init[i] == files[i];
    }
  }

  /** The keywords the files define. */
  ghost function Keywords(files: seq<DefinitionFile>): set<string>
  {
    set i | 0 <= i < |files| :: Keyword(files[i].name)
  }

  /** The keywords of a list are those of all but its last file, and the
      last file's. */
  lemma KeywordsSnoc(files: seq<DefinitionFile>)
    requires |files| > 0
    ensures Keywords(files) == Keywords(files[..|files| - 1]) + {Keyword(files[|files| - 1].name)}
  {
    var init := files[..|files| - 1];
    var last := |files| - 1;
    forall k | k in Keywords(files)
      ensures k in Keywords(init) + {Keyword(files[last].name)}
    {
      var i :| 0 <= i < |files| && Keyword(files[i].name) == k;
      if i < last {
        assert init[i] == files[i];
      }
    }
    forall k | k in Keywords(init)
      ensures k in Keywords(files)
    {
      var i :| 0 <= i < |init| && Keyword(init[i].name) == k;
      assert files[i] == init[i];
    }
    assert Keyword(files[last].name) in Keywords(files);
  }

  /** The registry holds one engine per keyword the files define, and no
      other. */
  lemma {:induction false} LoadKeywords(files: seq<DefinitionFile>)
    requires Load(files).Success?
    ensures Load(files).value.engines.Keys == Keywords(files)
  {
    if |files| > 0 {
      var init := files[..|files| - 1];
      LoadKeywords(init);
      KeywordsSnoc(files);
    }
  }

  /** Every stored engine carries the keyword it is stored under. */
  lemma {:induction false} LoadEngineKeywords(files: seq<DefinitionFile>)
    requires Load(files).Success?
    ensures forall k :: k in Load(files).value.engines ==> Load(files).value.engines[k].keyword == k
  {
    if |files| > 0 {
      LoadEngineKeywords(files[..|files| - 1]);
    }
  }

  /** On a duplicate keyword the later file wins: the engine registered under
      a keyword is the one from the last file that defines it. */
  lemma {:induction false} LoadLastWins(files: seq<DefinitionFile>, i: int)
    requires Load(files).Success?
    requires 0 <= i < |files|
    requires forall j :: i < j < |files| ==> Keyword(files[j].name) != Keyword(files[i].name)
    ensures Keyword(files[i].name) in Load(files).value.engines
    ensures FileEngine(files[i]) == Success(Load(files).value.engines[Keyword(files[i].name)])
  {
    var init := files[..|files| - 1];
    if i < |files| - 1 {
      assert init[i] == files[i];
      LoadLastWins(init, i);
    }
  }

  /** Once any file is loaded the default is set and names a registered
      engine; with no files there is no default. */
  lemma {:induction false} LoadReady(files: seq<DefinitionFile>)
    requires Load(files).Success?
    ensures |files| == 0 <==> Load(files).value.default.None?
    ensures |files| > 0 ==> Ready(Load(files).value)
  {
    if |files| > 0 {
      LoadReady(files[..|files| - 1]);
    }
  }

  /** The default is the keyword of the last file marked `.default`. */
  lemma {:induction false} LoadDefaultMarked(files: seq<DefinitionFile>, i: int)
    requires forall j :: 0 <= j < |files| ==> ListedName(files[j].name)
    requires Load(files).Success?
    requires 0 <= i < |files| && MarkedDefault(files[i].name)
    requires forall j :: i < j < |files| ==> !MarkedDefault(files[j].name)
    ensures Load(files).value.default == Some(Keyword(files[i].name))
  {
    var init := files[..|files| - 1];
    if i < |files| - 1 {
      assert init[i] == files[i];
      LoadDefaultMarked(init, i);
      KeywordOfListedName(files[i].name);
    }
  }

  /** Without a marked file the default is the keyword of the first file. */
  lemma {:induction false} LoadDefaultFirst(files: seq<DefinitionFile>)
    requires forall j :: 0 <= j < |files| ==> ListedName(files[j].name)
    requires forall j :: 0 <= j < |files| ==> !MarkedDefault(files[j].name)
    requires Load(files).Success?
    requires |files| > 0
    ensures Load(files).value.default == Some(Keyword(files[0].name))
  {
    var init := files[..|files| - 1];
    if |files| > 1 {
      assert init[0] == files[0];
      LoadDefaultFirst(init);
      KeywordOfListedName(files[0].name);
    }
  }

  // ---------------------------------------------------------------------
  // Resolution

  /** Which engine a query goes to, the text that engine is given, and
      whether the keyword is put back in front of its suggestions. */
  datatype Resolution = Resolution(engine: Option<string>, query: string, prepend: bool)

  /** `q` is the registered keyword `token`, one space, then `rest`. */
  ghost predicate KeywordQuery(keywords: set<string>, q: string, token: string, rest: string)
  {
    ' ' !in token && token in keywords && q == token + " " + rest
  }

  /** The routing rule shared by both request kinds: text up to the first
      space that is a registered keyword selects that engine and hands it
      exactly the text after that space; any other query goes whole to the
      default engine. */
  function Resolve(engines: map<string, Engine>, default: Option<string>, q: string): (r: Resolution)
    ensures r.prepend ==> r.engine.Some? && KeywordQuery(engines.Keys, q, r.engine.value, r.query)
    ensures !r.prepend ==> r.engine == default && r.query == q
    ensures forall token, rest {:trigger KeywordQuery(engines.Keys, q, token, rest)} ::
              KeywordQuery(engines.Keys, q, token, rest) ==> r == Resolution(Some(token), rest, true)
  {
    var i := FirstIndex(q, ' ');
    if i < |q| && q[..i] in engines then
      assert q == q[..i] + " " + q[i + 1..];
      assert forall token, rest :: KeywordQuery(engines.Keys, q, token, rest) ==>
               token == q[..i] && rest == q[i + 1..] by {
        forall token, rest | KeywordQuery(engines.Keys, q, token, rest)
          ensures token == q[..i] && rest == q[i + 1..]
        {
          FirstIndexAfter(token, ' ', rest);
          assert q == token + [' '] + rest;
        }
      }
      Resolution(Some(q[..i]), q[i + 1..], true)
    else
      assert forall token, rest :: KeywordQuery(engines.Keys, q, token, rest) ==> false by {
        forall token, rest | KeywordQuery(engines.Keys, q, token, rest)
          ensures false
        {
          FirstIndexAfter(token, ' ', rest);
        }
      }
      Resolution(default, q, false)
  }

  /** A query without a space goes whole to the default engine. */
  lemma ResolveNoSpace(engines: map<string, Engine>, default: Option<string>, q: string)
    requires ' ' !in q
    ensures Resolve(engines, default, q) == Resolution(default, q, false)
  {
  }

  /** A registered keyword and a space select that keyword's engine with the
      rest verbatim: runs of spaces are kept and `"g "` gives the empty
      query. */
  lemma ResolveKeyword(engines: map<string, Engine>, default: Option<string>, token: string, rest: string)
    requires ' ' !in token && token in engines
    ensures Resolve(engines, default, token + " " + rest) == Resolution(Some(token), rest, true)
  {
    assert KeywordQuery(engines.Keys, token + " " + rest, token, rest);
  }

  /** An unregistered first word sends the whole query, that word included,
      to the default engine. */
  lemma ResolveUnknownWord(engines: map<string, Engine>, default: Option<string>, token: string, rest: string)
    requires ' ' !in token && token !in engines
    ensures Resolve(engines, default, token + " " + rest) == Resolution(default, token + " " + rest, false)
  {
    var q := token + " " + rest;
    var r := Resolve(engines, default, q);
    if r.prepend {
      TokenUnique(token, rest, r.engine.value, r.query, ' ');
    }
  }

  // ---------------------------------------------------------------------
  // The router's two entry points, as written

  /** `self.search_engines[key]` for the default engine's key. */
  function DefaultEngine(reg: Registry): Result<Engine, Error>
  {
    if reg.default.Some? && reg.default.value in reg.engines
    then Success(reg.engines[reg.default.value])
    else Failure(UnknownEngine)
  }

  /** `SearchEngineRouter.get_search_url`. */
  function GetSearchUrl(reg: Registry, q: string): Result<string, Error>
  {
    var arguments := Split(q, ' ');
    if |arguments| < 2 then
      var e :- DefaultEngine(reg);
      Success(SearchUrl(e, q))
    else if arguments[0] !in reg.engines then
      var e :- DefaultEngine(reg);
      Success(SearchUrl(e, q))
    else
      Success(SearchUrl(reg.engines[arguments[0]], Join(arguments[1..], ' ')))
  }

  /** `SearchEngineRouter.get_suggestions`; `fetch` stands for the HTTP
      client. */
  function GetSuggestions(reg: Registry, q: string, fetch: string -> Result<Response, Error>): Result<Response, Error>
  {
    var arguments := Split(q, ' ');
    if |arguments| < 2 then
      var e :- DefaultEngine(reg);
      Suggestions(e, q, false, fetch)
    else if arguments[0] !in reg.engines then
      var e :- DefaultEngine(reg);
      Suggestions(e, q, false, fetch)
    else
      Suggestions(reg.engines[arguments[0]], Join(arguments[1..], ' '), true, fetch)
  }

  /** The engine a resolution names, if registered. */
  function Target(reg: Registry, r: Resolution): Result<Engine, Error>
  {
    if r.engine.Some? && r.engine.value in reg.engines
    then Success(reg.engines[r.engine.value])
    else Failure(UnknownEngine)
  }

  /** The `split(' ')`/`' '.join` code and `Resolve` agree on every query:
      the first piece is the keyword candidate and the rejoined tail is the
      text after the first space. */
  lemma SplitResolves(reg: Registry, q: string)
    ensures var arguments := Split(q, ' ');
            var r := Resolve(reg.engines, reg.default, q);
            if |arguments| < 2 || arguments[0] !in reg.engines
            then !r.prepend
            else r == Resolution(Some(arguments[0]), Join(arguments[1..], ' '), true)
  {
    var arguments := Split(q, ' ');
    SplitSingle(q, ' ');
    if |arguments| < 2 {
      ResolveNoSpace(reg.engines, reg.default, q);
    } else {
      var token, rest := arguments[0], Join(arguments[1..], ' ');
      assert q == token + " " + rest;
      if token in reg.engines {
        ResolveKeyword(reg.engines, reg.default, token, rest);
      } else {
        ResolveUnknownWord(reg.engines, reg.default, token, rest);
      }
    }
  }

  /** `get_search_url` is `Resolve` followed by the chosen engine's search
      URL for the resolved text. */
  lemma GetSearchUrlResolves(reg: Registry, q: string)
    ensures var r := Resolve(reg.engines, reg.default, q);
            GetSearchUrl(reg, q)
            == (match Target(reg, r)
                case Success(e) => Success(SearchUrl(e, r.query))
                case Failure(err) => Failure(err))
  {
    SplitResolves(reg, q);
  }

  /** `get_suggestions` is `Resolve` followed by the chosen engine's
      suggestions for the resolved text, prepending exactly when `Resolve`
      says so. */
  lemma GetSuggestionsResolves(reg: Registry, q: string, fetch: string -> Result<Response, Error>)
    ensures var r := Resolve(reg.engines, reg.default, q);
            GetSuggestions(reg, q, fetch)
            == (match Target(reg, r)
                case Success(e) => Suggestions(e, r.query, r.prepend, fetch)
                case Failure(err) => Failure(err))
  {
    SplitResolves(reg, q);
  }

  /** The default engine of a loaded registry: missing exactly when no
      definition file was found, otherwise the engine stored under the
      default keyword. */
  lemma LoadedDefaultEngine(files: seq<DefinitionFile>)
    requires Load(files).Success?
    ensures |files| == 0 <==> DefaultEngine(Load(files).value) == Failure(UnknownEngine)
    ensures |files| > 0 ==>
              && DefaultEngine(Load(files).value).Success?
              && DefaultEngine(Load(files).value).value.keyword == Load(files).value.default.value
  {
    LoadReady(files);
    LoadEngineKeywords(files);
  }

  /** A ready registry answers every search query. */
  lemma ReadyAnswers(reg: Registry, q: string)
    requires Ready(reg)
    ensures GetSearchUrl(reg, q).Success?
  {
  }

  /** Why the keyword is prepended: when the backend echoes the text it was
      given, the normalised echo is the user's whole query again. */
  lemma KeywordEchoRestored(reg: Registry, token: string, rest: string, fetch: string -> Result<Response, Error>)
    requires ' ' !in token && token in reg.engines
    requires reg.engines[token].keyword == token
    requires var url := SuggestionsUrl(reg.engines[token], rest);
             fetch(url).Success? && fetch(url).value.Decoded? && fetch(url).value.payload.echo == rest
    ensures var answer := GetSuggestions(reg, token + " " + rest, fetch);
            answer.Success? && answer.value.Decoded?
            && answer.value.payload.echo == token + " " + rest
  {
    GetSuggestionsResolves(reg, token + " " + rest, fetch);
    ResolveKeyword(reg.engines, reg.default, token, rest);
  }

  /** For a loaded registry, the keyword premise of `KeywordEchoRestored`
      always holds: a keyword query's suggestions echo the whole query
      whenever the backend echoes the text it was sent. */
  lemma LoadedEchoRestored(files: seq<DefinitionFile>, token: string, rest: string,
                           fetch: string -> Result<Response, Error>)
    requires Load(files).Success?
    requires ' ' !in token && token in Load(files).value.engines
    requires var url := SuggestionsUrl(Load(files).value.engines[token], rest);
             fetch(url).Success? && fetch(url).value.Decoded? && fetch(url).value.payload.echo == rest
    ensures var answer := GetSuggestions(Load(files).value, token + " " + rest, fetch);
            answer.Success? && answer.value.Decoded?
            && answer.value.payload.echo == token + " " + rest
  {
    LoadEngineKeywords(files);
    KeywordEchoRestored(Load(files).value, token, rest, fetch);
  }
}
