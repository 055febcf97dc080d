/** src/lib/parseConfig.ts: the board configuration carried in the query
    string. Query parameters are a map from key to value; the URL text
    itself (origin, path, percent-encoding) is not modelled. */
module ParseConfig {
  import opened Types
  import opened Seqs
  import opened Text

  const DefaultAmount := 5

  /** `defaultConfig`. */
  const DefaultConfig := Config(Station("", None, None), DefaultAmount, false, "", [], [])

  /** Query parameters: `URLSearchParams` with one value per key. */
  type Params = map<string, string>

  /** `searchParams.get(key)`: the value, or `null`. */
  function Get(q: Params, key: string): Option<string> {
    if key in q then Some(q[key]) else None
  }

  // ---------------------------------------------------------------------
  // integers

  /** `parseIntOrDefault(input, def)`: a missing or empty input, or one
      `parseInt` reads as `NaN`, gives `def`. */
  function ParseIntOrDefault(input: Option<string>, def: int): int {
    if input.None? || input.value == "" then def
    else
      match ParseIntPrefix(input.value)
      case None => def
      case Some(n) => n
  }

  /** The default stands in for a missing value, an empty string and any
      text without a decimal digit. */
  lemma ParseIntOrDefaultFallsBack(input: Option<string>, def: int)
    requires input.Some? ==> forall i :: 0 <= i < |input.value| ==> !IsDigit(input.value[i])
    ensures ParseIntOrDefault(input, def) == def
  {
    if input.Some? && input.value != "" {
      ParseIntWithoutDigits(input.value);
    }
  }

  /** A written integer, possibly followed by text that is not a digit
      (`"12px"`), reads back as that integer whatever the default. */
  lemma ParseIntOrDefaultReadsNumber(i: int, rest: string, def: int)
    requires rest == [] || !IsDigit(rest[0])
    ensures ParseIntOrDefault(Some(IntToString(i) + rest), def) == i
  {
    ParseIntOfIntToString(i, rest);
    NatToStringDigits(if i < 0 then -i else i);
  }

  // ---------------------------------------------------------------------
  // filters

  /** `const [line = "", destination = ""] = tok.split(":")`: the text
      before the first `:` and the second part, or `""`; further parts are
      dropped. */
  function TokenToFilter(tok: string): (f: LineDest)
    ensures ':' !in f.line && ':' !in f.destination
  {
    var parts := Split(tok, ':');
    SplitPartsAvoidSeparator(tok, ':');
    LineDest(parts[0], if |parts| >= 2 then parts[1] else "")
  }

  /** A token without `:` is all line, with an empty destination. */
  lemma TokenWithoutColon(tok: string)
    requires ':' !in tok
    ensures TokenToFilter(tok) == LineDest(tok, "")
  {
    SplitWithoutSeparator(tok, ':');
  }

  /** `line:destination`, possibly followed by more `:`-parts, gives that
      pair back. */
  lemma TokenOfPair(line: string, destination: string, rest: string)
    requires ':' !in line && ':' !in destination
    requires rest == [] || rest[0] == ':'
    ensures TokenToFilter(line + [':'] + destination + rest) == LineDest(line, destination)
  {
    assert line + [':'] + destination + rest == line + [':'] + (destination + rest);
    SplitAtSeparator(line, ':', destination + rest);
    if rest == [] {
      assert destination + rest == destination;
      SplitWithoutSeparator(destination, ':');
    } else {
      assert destination + rest == destination + [':'] + rest[1..];
      SplitAtSeparator(destination, ':', rest[1..]);
    }
  }

  /** `.filter(Boolean).map(...)` over the `;`-tokens: one filter per
      non-empty token, in order. */
  function FiltersOfTokens(tokens: seq<string>): seq<LineDest>
    decreases |tokens|
  {
    if tokens == [] then []
    else FiltersOfTokens(DropLast(tokens)) +
         (if Last(tokens) == "" then [] else [TokenToFilter(Last(tokens))])
  }

  /** Every filter comes from a non-empty token, every non-empty token
      gives one, and there are exactly as many filters as non-empty
      tokens. */
  lemma {:induction false} FiltersOfTokensMembers(tokens: seq<string>)
    ensures |FiltersOfTokens(tokens)| == |tokens| - multiset(tokens)[""]
    ensures forall f :: f in FiltersOfTokens(tokens) <==>
              exists t :: t in tokens && t != "" && TokenToFilter(t) == f
    decreases |tokens|
  {
    if tokens != [] {
      FiltersOfTokensMembers(DropLast(tokens));
      assert tokens == DropLast(tokens) + [Last(tokens)];
      assert multiset(tokens) == multiset(DropLast(tokens)) + multiset{Last(tokens)};
    }
  }

  /** One token gives one filter, or none when it is empty. */
  lemma FiltersOfTokensOne(t: string)
    ensures FiltersOfTokens([t]) == if t == "" then [] else [TokenToFilter(t)]
  {
    assert DropLast([t]) == [] && Last([t]) == t;
  }

  /** The tokens are decoded one by one, in order: with
      `FiltersOfTokensOne` this fixes the whole list. */
  lemma {:induction false} FiltersOfTokensAppend(a: seq<string>, b: seq<string>)
    ensures FiltersOfTokens(a + b) == FiltersOfTokens(a) + FiltersOfTokens(b)
    decreases |b|
  {
    if b == [] {
      assert a + b == a;
    } else {
      FiltersOfTokensAppend(a, DropLast(b));
      assert DropLast(a + b) == a + DropLast(b) && Last(a + b) == Last(b);
    }
  }

  /** `decodeFilters(str)`: `null` and `""` give `[]`. */
  function DecodeFilters(str: Option<string>): seq<LineDest> {
    if str.None? || str.value == "" then [] else FiltersOfTokens(Split(str.value, ';'))
  }

  /** A single token without `:` or `;` decodes to one filter with an empty
      destination. */
  lemma DecodeSingleToken(tok: string)
    requires tok != "" && ':' !in tok && ';' !in tok
    ensures DecodeFilters(Some(tok)) == [LineDest(tok, "")]
  {
    SplitWithoutSeparator(tok, ';');
    assert DropLast([tok]) == [] && Last([tok]) == tok;
    assert FiltersOfTokens([tok]) == FiltersOfTokens([]) + [TokenToFilter(tok)];
    TokenWithoutColon(tok);
  }

  function EncodeFilter(f: LineDest): string {
    f.line + [':'] + f.destination
  }

  /** `filters.map(f => `${f.line}:${f.destination}`)`, built from the
      right; the ensures is the pointwise form of the map. */
  function FilterTokens(filters: seq<LineDest>): (tokens: seq<string>)
    ensures |tokens| == |filters|
    ensures forall i :: 0 <= i < |filters| ==> tokens[i] == EncodeFilter(filters[i])
    decreases |filters|
  {
    if filters == [] then []
    else FilterTokens(DropLast(filters)) + [EncodeFilter(Last(filters))]
  }

  /** `encodeFilters(filters)`: the tokens joined with `;`. */
  function EncodeFilters(filters: seq<LineDest>): string {
    Join(FilterTokens(filters), ';')
  }

  /** A filter whose fields survive the codec: neither separator occurs. */
  predicate Encodable(f: LineDest) {
    ':' !in f.line && ';' !in f.line && ':' !in f.destination && ';' !in f.destination
  }

  predicate AllEncodable(filters: seq<LineDest>) {
    forall i :: 0 <= i < |filters| ==> Encodable(filters[i])
  }

  lemma {:induction false} FiltersOfFilterTokens(filters: seq<LineDest>)
    requires AllEncodable(filters)
    ensures FiltersOfTokens(FilterTokens(filters)) == filters
    decreases |filters|
  {
    if filters != [] {
      var tokens := FilterTokens(filters);
      assert DropLast(tokens) == FilterTokens(DropLast(filters));
      FiltersOfFilterTokens(DropLast(filters));
      var f := Last(filters);
      assert Last(tokens) == f.line + [':'] + f.destination + [];
      TokenOfPair(f.line, f.destination, []);
      assert filters == DropLast(filters) + [f];
    }
  }

  /** Decoding undoes encoding when no field contains `:` or `;`. */
  lemma DecodeEncode(filters: seq<LineDest>)
    requires AllEncodable(filters)
    ensures DecodeFilters(Some(EncodeFilters(filters))) == filters
  {
    var tokens := FilterTokens(filters);
    if filters == [] {
      assert tokens == [];
    } else {
      assert |tokens[0]| > 0 by {
        assert tokens[0] == filters[0].line + [':'] + filters[0].destination;
      }
      if |tokens| == 1 {
        assert EncodeFilters(filters) == tokens[0];
      } else {
        assert EncodeFilters(filters) == tokens[0] + [';'] + Join(tokens[1..], ';');
      }
      forall i | 0 <= i < |tokens|
        ensures ';' !in tokens[i]
      {
        assert tokens[i] == filters[i].line + [':'] + filters[i].destination;
      }
      SplitJoin(tokens, ';');
      FiltersOfFilterTokens(filters);
    }
  }

  // ---------------------------------------------------------------------
  // the whole configuration

  /** `searchParamToConfig(searchParams)`. Only the station id travels in
      the query; `name` and `place` are absent. */
  function SearchParamToConfig(q: Params): (c: Config)
    ensures "station" !in q ==> c.station.id == ""
    ensures "amount" !in q ==> c.amount == DefaultAmount
    ensures c.darkMode <==> "theme" in q && q["theme"] == "dark"
    ensures "titlebar" !in q ==> c.titleBar == ""
    ensures "include" !in q ==> c.includeFilters == []
    ensures "exclude" !in q ==> c.excludeFilters == []
  {
    var station := Get(q, "station");
    Config(
      Station(if station.Some? && station.value != "" then station.value else "", None, None),
      ParseIntOrDefault(Get(q, "amount"), DefaultAmount),
      Get(q, "theme") == Some("dark"),
      if "titlebar" in q then q["titlebar"] else "",
      DecodeFilters(Get(q, "include")),
      DecodeFilters(Get(q, "exclude")))
  }

  /** An empty query is the default configuration. */
  lemma EmptyQueryIsDefault()
    ensures SearchParamToConfig(map[]) == DefaultConfig
  {
  }

  /** The keys `configToURL` writes or deletes. */
  predicate IsConfigKey(k: string) {
    k == "station" || k == "amount" || k == "theme" || k == "titlebar" || k == "include" || k == "exclude"
  }

  /** What `configToURL(config)` leaves in `q`, started from the
      parameters `search` of the current page: each step of the source is
      one update of the map. */
  function ConfigParams(search: Params, config: Config): Params {
    var q1 := search["station" := config.station.id]
                    ["amount" := IntToString(config.amount)]
                    ["theme" := if config.darkMode then "dark" else "light"];
    var q2 := if config.titleBar != "" then q1["titlebar" := config.titleBar] else q1 - {"titlebar"};
    q2["include" := EncodeFilters(config.includeFilters)]
      ["exclude" := EncodeFilters(config.excludeFilters)]
  }

  /** The six keys get the configuration's values; `titlebar` is present
      exactly when the title is non-empty. */
  lemma ConfigParamsWrites(search: Params, config: Config)
    ensures var q := ConfigParams(search, config);
      && Get(q, "station") == Some(config.station.id)
      && Get(q, "amount") == Some(IntToString(config.amount))
      && Get(q, "theme") == Some(if config.darkMode then "dark" else "light")
      && Get(q, "titlebar") == (if config.titleBar != "" then Some(config.titleBar) else None)
      && Get(q, "include") == Some(EncodeFilters(config.includeFilters))
      && Get(q, "exclude") == Some(EncodeFilters(config.excludeFilters))
  {
  }

  /** Every other parameter of the page is kept as it was. */
  lemma ConfigParamsKeepsOthers(search: Params, config: Config, k: string)
    requires !IsConfigKey(k)
    ensures Get(ConfigParams(search, config), k) == Get(search, k)
  {
  }

  /** Reading the written parameters back restores the configuration, up
      to the station's display fields, which are not written. */
  lemma ConfigRoundTrip(search: Params, config: Config)
    requires AllEncodable(config.includeFilters) && AllEncodable(config.excludeFilters)
    ensures SearchParamToConfig(ConfigParams(search, config)) ==
            config.(station := Station(config.station.id, None, None))
  {
    ConfigParamsWrites(search, config);
    ParseIntOrDefaultReadsNumber(config.amount, "", DefaultAmount);
    assert IntToString(config.amount) + "" == IntToString(config.amount);
    DecodeEncode(config.includeFilters);
    DecodeEncode(config.excludeFilters);
  }

  /** `configToURL(config)`: `q` is updated step by step; the returned map
      is what `q.toString()` serialises after `${origin}/board?`. */
  method ConfigToURL(search: Params, config: Config) returns (q: Params)
    ensures q == ConfigParams(search, config)
    ensures forall k :: !IsConfigKey(k) ==> Get(q, k) == Get(search, k)
    ensures AllEncodable(config.includeFilters) && AllEncodable(config.excludeFilters) ==>
              SearchParamToConfig(q) == config.(station := Station(config.station.id, None, None))
  {
    q := search;
    q := q["station" := config.station.id];
    q := q["amount" := IntToString(config.amount)];
    q := q["theme" := if config.darkMode then "dark" else "light"];

    if config.titleBar != "" {
      q := q["titlebar" := config.titleBar];
    } else {
      q := q - {"titlebar"};
    }

    q := q["include" := EncodeFilters(config.includeFilters)];
    q := q["exclude" := EncodeFilters(config.excludeFilters)];

    forall k | !IsConfigKey(k)
      ensures Get(q, k) == Get(search, k)
    {
      ConfigParamsKeepsOthers(search, config, k);
    }
    if AllEncodable(config.includeFilters) && AllEncodable(config.excludeFilters) {
      ConfigRoundTrip(search, config);
    }
  }
}
