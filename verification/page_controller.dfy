/** The web client's history-token handling: a token such as
    `p=search&q=foo` is split into parameters, and the `p` parameter picks the
    page to show. Widgets and browser history are outside the model; a page is
    represented by what it is shown with. */
module PageController {
  import opened Results
  import Text

  /** Splitter.on("&").omitEmptyStrings(): the non-empty parts, in order.
      Glued together they give the token without its '&'s, and there are none
      exactly when the token is made of '&'s only. */
  function Parts(token: string): (parts: seq<string>)
    ensures forall i :: 0 <= i < |parts| ==> |parts[i]| > 0 && '&' !in parts[i]
    ensures Text.Concat(parts) == Text.Without(token, '&')
    ensures |parts| == 0 <==> forall i :: 0 <= i < |token| ==> token[i] == '&'
  {
    PiecesOfToken(token);
    Text.OmitEmpty(Text.Split(token, '&'))
  }

  lemma PiecesOfToken(token: string)
    ensures var parts := Text.OmitEmpty(Text.Split(token, '&'));
      && (forall i :: 0 <= i < |parts| ==> |parts[i]| > 0 && '&' !in parts[i])
      && Text.Concat(parts) == Text.Without(token, '&')
      && (|parts| == 0 <==> forall i :: 0 <= i < |token| ==> token[i] == '&')
  {
    var pieces := Text.Split(token, '&');
    var parts := Text.OmitEmpty(pieces);
    assert forall i :: 0 <= i < |parts| ==> parts[i] in pieces;
    Text.ConcatSplit(token, '&');
    Text.ConcatOmitEmpty(pieces);
    Text.WithoutEmpty(token, '&');
    assert |parts| > 0 ==> |Text.Concat(parts)| >= |parts[0]| > 0;
  }

  /** One `key=value` part. The key is the text before the first '=' and the
      value all of the text after it. `indexOf` is always below the length, so
      the first branch is never taken; a part without '=' reaches
      `substring(0, -1)` and throws. */
  function ParsePart(part: string): (r: Result<(string, string)>)
    ensures r.Err? <==> '=' !in part
    ensures r.Err? ==> r.error == IndexOutOfBounds
    ensures r.Ok? ==> '=' !in r.value.0 && part == r.value.0 + "=" + r.value.1
  {
    var eq := Text.IndexOf(part, '=');
    if eq >= |part| then Ok((part, ""))
    else if eq < 0 then Err(IndexOutOfBounds)
    else
      assert part == part[..eq] + "=" + part[eq + 1..];
      Ok((part[..eq], part[eq + 1..]))
  }

  /** Parses the parts in order; the first part without '=' throws. */
  function ParseParts(parts: seq<string>): (r: Result<seq<(string, string)>>)
    ensures r.Ok? <==> forall i :: 0 <= i < |parts| ==> '=' in parts[i]
    ensures r.Err? ==> r.error == IndexOutOfBounds
    ensures r.Ok? ==> |r.value| == |parts|
    ensures r.Ok? ==> forall i :: 0 <= i < |parts| ==> Ok(r.value[i]) == ParsePart(parts[i])
  {
    if |parts| == 0 then Ok([])
    else
      var kv :- ParsePart(parts[0]);
      var rest :- ParseParts(parts[1..]);
      assert forall i :: 1 <= i < |parts| ==> parts[i] == parts[1..][i - 1];
      Ok([kv] + rest)
  }

  predicate DistinctKeys(pairs: seq<(string, string)>) {
    forall i, j :: 0 <= i < j < |pairs| ==> pairs[i].0 != pairs[j].0
  }

  /** ImmutableMap.Builder.build: the map of the pairs, or a failure when a key repeats. */
  function BuildMap(pairs: seq<(string, string)>): (r: Result<map<string, string>>)
    ensures r.Ok? <==> DistinctKeys(pairs)
    ensures r.Err? ==> r.error == DuplicateKey
    ensures r.Ok? ==> r.value.Keys == set i | 0 <= i < |pairs| :: pairs[i].0
    ensures r.Ok? ==> forall i :: 0 <= i < |pairs| ==> r.value[pairs[i].0] == pairs[i].1
  {
    if |pairs| == 0 then Ok(map[])
    else
      var rest := BuildMap(pairs[1..]);
      assert forall i :: 1 <= i < |pairs| ==> pairs[i] == pairs[1..][i - 1];
      if rest.Err? then Err(DuplicateKey)
      else if pairs[0].0 in rest.value then
        assert exists j :: 1 <= j < |pairs| && pairs[j].0 == pairs[0].0;
        Err(DuplicateKey)
      else Ok(rest.value[pairs[0].0 := pairs[0].1])
  }

  /** The parameters of a history token. Keys hold neither '=' nor '&', values no '&'. */
  function BuildParameters(token: string): (r: Result<map<string, string>>)
    ensures r.Ok? ==> forall k :: k in r.value ==> '=' !in k && '&' !in k && '&' !in r.value[k]
  {
    var pairs :- ParseParts(Parts(token));
    PairsOfParts(Parts(token), pairs);
    BuildMap(pairs)
  }

  lemma PairsOfParts(parts: seq<string>, pairs: seq<(string, string)>)
    requires forall i :: 0 <= i < |parts| ==> '&' !in parts[i]
    requires ParseParts(parts) == Ok(pairs)
    ensures forall i :: 0 <= i < |pairs| ==> '=' !in pairs[i].0 && '&' !in pairs[i].0 && '&' !in pairs[i].1
  {
    forall i | 0 <= i < |pairs|
      ensures '=' !in pairs[i].0 && '&' !in pairs[i].0 && '&' !in pairs[i].1
    {
      assert parts[i] == pairs[i].0 + "=" + pairs[i].1;
      assert forall c :: c in pairs[i].0 ==> c in parts[i];
      assert forall c :: c in pairs[i].1 ==> c in parts[i];
    }
  }

  /** Each part of a token that builds contributes its key and value. */
  lemma PartIsParameter(token: string, i: nat)
    requires BuildParameters(token).Ok? && i < |Parts(token)|
    ensures ParsePart(Parts(token)[i]).Ok?
    ensures var kv := ParsePart(Parts(token)[i]).value;
      kv.0 in BuildParameters(token).value && BuildParameters(token).value[kv.0] == kv.1
  {
  }

  /** Every parameter comes from a part of the token. */
  lemma ParameterIsPart(token: string, k: string)
    requires BuildParameters(token).Ok? && k in BuildParameters(token).value
    ensures exists i :: (0 <= i < |Parts(token)|
      && ParsePart(Parts(token)[i]) == Ok((k, BuildParameters(token).value[k])))
  {
    var pairs := ParseParts(Parts(token)).value;
    var i :| 0 <= i < |pairs| && pairs[i].0 == k;
    assert ParsePart(Parts(token)[i]) == Ok(pairs[i]);
  }

  /** A part without '=' makes the whole token fail, whatever else it holds. */
  lemma PartWithoutEqualsFails(token: string, i: nat)
    requires i < |Parts(token)| && '=' !in Parts(token)[i]
    ensures BuildParameters(token) == Err(IndexOutOfBounds)
  {
  }

  /** A key given twice makes the token fail. */
  lemma RepeatedKeyFails(token: string, i: nat, j: nat)
    requires i < j < |Parts(token)|
    requires ParseParts(Parts(token)).Ok?
    requires ParsePart(Parts(token)[i]).value.0 == ParsePart(Parts(token)[j]).value.0
    ensures BuildParameters(token) == Err(DuplicateKey)
  {
    var pairs := ParseParts(Parts(token)).value;
    assert pairs[i].0 == pairs[j].0;
  }

  /** The page shown for a token; the parameter it is shown with may be absent. */
  datatype Page = HomePage | SearchPage(query: Option<string>) | SourcePage(fileName: Option<string>)

  /** `p=search` shows the search page with `q`, `p=source` the source page
      with `file`; anything else, a missing `p` included, the home page. */
  function Dispatch(parameters: map<string, string>): (r: Page)
    ensures r.SearchPage? <==> "p" in parameters && parameters["p"] == "search"
    ensures r.SourcePage? <==> "p" in parameters && parameters["p"] == "source"
    ensures r.HomePage? <==> "p" !in parameters || parameters["p"] !in {"search", "source"}
    ensures r.SearchPage? ==> (r.query.Some? <==> "q" in parameters)
    ensures r.SearchPage? && r.query.Some? ==> r.query.value == parameters["q"]
    ensures r.SourcePage? ==> (r.fileName.Some? <==> "file" in parameters)
    ensures r.SourcePage? && r.fileName.Some? ==> r.fileName.value == parameters["file"]
  {
    assert "source"[1] != "search"[1];
    var page := MapGet(parameters, "p");
    if page == Some("search") then SearchPage(MapGet(parameters, "q"))
    else if page == Some("source") then SourcePage(MapGet(parameters, "file"))
    else HomePage
  }

  /** The page a history token opens; a token whose parameters cannot be
      read throws the same exception. */
  function HandleHistoryToken(token: string): (r: Result<Page>)
    ensures r.Err? <==> BuildParameters(token).Err?
    ensures r.Err? ==> r.error == BuildParameters(token).error
    ensures r.Ok? ==> r.value == Dispatch(BuildParameters(token).value)
  {
    var parameters :- BuildParameters(token);
    Ok(Dispatch(parameters))
  }

  /** The token switchToSearchResult pushes, given the already URL-encoded query. */
  function SearchResultToken(encodedQuery: string): (r: string)
    ensures r == TokenOf([("p", "search"), ("q", encodedQuery)])
  {
    TokenOfTwo("p", "search", "q", encodedQuery);
    assert "p=search&q=" == "p" + "=" + "search" + "&" + "q" + "=";
    "p=search&q=" + encodedQuery
  }

  /** The token switchToViewSource pushes, given the already URL-encoded file name. */
  function ViewSourceToken(encodedFileName: string): (r: string)
    ensures r == TokenOf([("p", "source"), ("file", encodedFileName)])
  {
    TokenOfTwo("p", "source", "file", encodedFileName);
    assert "p=source&file=" == "p" + "=" + "source" + "&" + "file" + "=";
    "p=source&file=" + encodedFileName
  }

  /** The part `key=value` of one parameter. */
  function PartOf(parameter: (string, string)): string
  {
    parameter.0 + "=" + parameter.1
  }

  /** The token that carries the parameters in order: their parts glued with '&'. */
  function TokenOf(parameters: seq<(string, string)>): string
  {
    if |parameters| == 0 then ""
    else if |parameters| == 1 then PartOf(parameters[0])
    else PartOf(parameters[0]) + "&" + TokenOf(parameters[1..])
  }

  /** Parameters a token can carry: keys without '=' or '&', values without '&'. */
  predicate Encodable(parameters: seq<(string, string)>)
  {
    forall i :: 0 <= i < |parameters| ==>
      '=' !in parameters[i].0 && '&' !in parameters[i].0 && '&' !in parameters[i].1
  }

  /** A part whose key is '='-free parses back into its key and value. */
  lemma ParsePartOf(parameter: (string, string))
    requires '=' !in parameter.0
    ensures ParsePart(PartOf(parameter)) == Ok(parameter)
  {
    var part := PartOf(parameter);
    assert part == parameter.0 + ['='] + parameter.1;
    Text.IndexOfAfterPrefix(parameter.0, '=', parameter.1);
    assert part[..|parameter.0|] == parameter.0 && part[|parameter.0| + 1..] == parameter.1;
  }

  lemma PartOfHasNoAmpersand(parameter: (string, string))
    requires '&' !in parameter.0 && '&' !in parameter.1
    ensures '&' !in PartOf(parameter) && |PartOf(parameter)| > 0
  {
    assert PartOf(parameter) == parameter.0 + ['='] + parameter.1;
  }

  /** The parts of a token built from parameters are the parameters' parts. */
  lemma {:induction false} PartsOfToken(parameters: seq<(string, string)>)
    requires Encodable(parameters)
    ensures |Parts(TokenOf(parameters))| == |parameters|
    ensures forall i :: 0 <= i < |parameters| ==> Parts(TokenOf(parameters))[i] == PartOf(parameters[i])
  {
    if |parameters| == 0 {
      Text.SplitSeparatorsOnly("", '&');
      Text.OmitEmptyOfEmpties(Text.Split("", '&'));
    } else if |parameters| == 1 {
      var a := PartOf(parameters[0]);
      PartOfHasNoAmpersand(parameters[0]);
      assert Text.IndexOf(a, '&') == -1;
      var pieces := [a];
      assert Text.Split(a, '&') == pieces;
      assert Text.OmitEmpty(pieces[1..]) == [];
      assert Text.OmitEmpty(pieces) == [a];
    } else {
      var a := PartOf(parameters[0]);
      var rest := TokenOf(parameters[1..]);
      PartOfHasNoAmpersand(parameters[0]);
      assert Encodable(parameters[1..]);
      PartsOfToken(parameters[1..]);
      assert TokenOf(parameters) == a + ['&'] + rest;
      Text.SplitAfterPrefix(a, '&', rest);
      var pieces := [a] + Text.Split(rest, '&');
      assert Text.Split(TokenOf(parameters), '&') == pieces;
      assert pieces[1..] == Text.Split(rest, '&');
      assert Text.OmitEmpty(pieces) == [a] + Text.OmitEmpty(Text.Split(rest, '&'));
      assert Parts(TokenOf(parameters)) == [a] + Parts(rest);
      assert |Parts(rest)| == |parameters| - 1;
    }
  }

  /** The parts of a token built from parameters parse back into the parameters. */
  lemma ParsePartsOfToken(parameters: seq<(string, string)>)
    requires Encodable(parameters)
    ensures ParseParts(Parts(TokenOf(parameters))) == Ok(parameters)
  {
    var parts := Parts(TokenOf(parameters));
    PartsOfToken(parameters);
    forall i | 0 <= i < |parts|
      ensures ParsePart(parts[i]) == Ok(parameters[i])
    {
      ParsePartOf(parameters[i]);
    }
    var r := ParseParts(parts);
    assert r.Ok?;
    assert r.value == parameters;
  }

  /** Building a token from parameters and reading it back yields the map of
      the parameters, and fails exactly when a key repeats. */
  lemma TokenRoundTrip(parameters: seq<(string, string)>)
    requires Encodable(parameters)
    ensures BuildParameters(TokenOf(parameters)) == BuildMap(parameters)
    ensures BuildParameters(TokenOf(parameters)).Ok? <==> DistinctKeys(parameters)
  {
    ParsePartsOfToken(parameters);
  }

  lemma BuildTwo(k1: string, v1: string, k2: string, v2: string)
    requires k1 != k2
    ensures BuildMap([(k1, v1), (k2, v2)]) == Ok(map[k1 := v1, k2 := v2])
  {
    var pairs := [(k1, v1), (k2, v2)];
    assert pairs[1..] == [(k2, v2)];
    assert pairs[1..][1..] == [];
    assert BuildMap(pairs[1..][1..]) == Ok(map[]);
    assert BuildMap(pairs[1..]) == Ok(map[k2 := v2]);
    assert map[k2 := v2][k1 := v1] == map[k1 := v1, k2 := v2];
  }

  /** The token of two parameters, unfolded. */
  lemma TokenOfTwo(k1: string, v1: string, k2: string, v2: string)
    ensures TokenOf([(k1, v1), (k2, v2)]) == k1 + "=" + v1 + "&" + k2 + "=" + v2
  {
    var pairs := [(k1, v1), (k2, v2)];
    assert pairs[1..] == [(k2, v2)];
  }

  /** A token built for the search page opens the search page with the same
      query, provided the encoded query holds no '&'. */
  lemma SearchResultRoundTrip(encodedQuery: string)
    requires '&' !in encodedQuery
    ensures BuildParameters(SearchResultToken(encodedQuery)) == Ok(map["p" := "search", "q" := encodedQuery])
    ensures HandleHistoryToken(SearchResultToken(encodedQuery)) == Ok(SearchPage(Some(encodedQuery)))
  {
    var pairs := [("p", "search"), ("q", encodedQuery)];
    assert Encodable(pairs);
    TokenRoundTrip(pairs);
    BuildTwo("p", "search", "q", encodedQuery);
    var parameters := map["p" := "search", "q" := encodedQuery];
    assert MapGet(parameters, "p") == Some("search");
    assert MapGet(parameters, "q") == Some(encodedQuery);
  }

  /** A token built for the source page opens the source page with the same
      file name, provided the encoded name holds no '&'. */
  lemma ViewSourceRoundTrip(encodedFileName: string)
    requires '&' !in encodedFileName
    ensures BuildParameters(ViewSourceToken(encodedFileName)) == Ok(map["p" := "source", "file" := encodedFileName])
    ensures HandleHistoryToken(ViewSourceToken(encodedFileName)) == Ok(SourcePage(Some(encodedFileName)))
  {
    var pairs := [("p", "source"), ("file", encodedFileName)];
    assert Encodable(pairs);
    TokenRoundTrip(pairs);
    BuildTwo("p", "source", "file", encodedFileName);
    var parameters := map["p" := "source", "file" := encodedFileName];
    assert MapGet(parameters, "p") == Some("source");
    assert MapGet(parameters, "file") == Some(encodedFileName);
    DispatchSource(parameters);
  }

  lemma DispatchSource(parameters: map<string, string>)
    requires MapGet(parameters, "p") == Some("source")
    ensures Dispatch(parameters) == SourcePage(MapGet(parameters, "file"))
  {
    assert "source"[1] != "search"[1];
  }

  /** An empty token, or one of separators only, shows the home page. */
  lemma EmptyTokenShowsHome(token: string)
    requires forall i :: 0 <= i < |token| ==> token[i] == '&'
    ensures HandleHistoryToken(token) == Ok(HomePage)
  {
    Text.SplitSeparatorsOnly(token, '&');
    Text.OmitEmptyOfEmpties(Text.Split(token, '&'));
  }

  // ---------------------------------------------------------------------
  // Parameter values holding '&' or '='

  lemma BuildThree(k1: string, v1: string, k2: string, v2: string, k3: string, v3: string)
    requires k1 != k2 && k1 != k3 && k2 != k3
    ensures BuildMap([(k1, v1), (k2, v2), (k3, v3)]) == Ok(map[k1 := v1, k2 := v2, k3 := v3])
  {
    var pairs := [(k1, v1), (k2, v2), (k3, v3)];
    assert pairs[1..] == [(k2, v2), (k3, v3)];
    BuildTwo(k2, v2, k3, v3);
    assert map[k2 := v2, k3 := v3][k1 := v1] == map[k1 := v1, k2 := v2, k3 := v3];
  }

  lemma TokenOfThree(k1: string, v1: string, k2: string, v2: string, k3: string, v3: string)
    ensures TokenOf([(k1, v1), (k2, v2), (k3, v3)]) == k1 + "=" + v1 + "&" + k2 + "=" + v2 + "&" + k3 + "=" + v3
  {
    var pairs := [(k1, v1), (k2, v2), (k3, v3)];
    assert pairs[1..] == [(k2, v2), (k3, v3)];
    TokenOfTwo(k2, v2, k3, v3);
  }

  /** Three parameters with distinct keys read back as their map. */
  lemma ThreeParametersReadBack(k1: string, v1: string, k2: string, v2: string, k3: string, v3: string)
    requires k1 != k2 && k1 != k3 && k2 != k3
    requires Encodable([(k1, v1), (k2, v2), (k3, v3)])
    ensures BuildParameters(k1 + "=" + v1 + "&" + k2 + "=" + v2 + "&" + k3 + "=" + v3)
      == Ok(map[k1 := v1, k2 := v2, k3 := v3])
  {
    TokenOfThree(k1, v1, k2, v2, k3, v3);
    TokenRoundTrip([(k1, v1), (k2, v2), (k3, v3)]);
    BuildThree(k1, v1, k2, v2, k3, v3);
  }

  /** A two-parameter token whose second value is `a&b=c` reads back as three
      parameters, the third being `b` with value `c`. */
  lemma ValueWithSeparatorsReadBack(page: string, key: string, a: string, b: string, c: string)
    requires '&' !in page && '=' !in key && '&' !in key && key != "p"
    requires '&' !in a && '&' !in b && '&' !in c && '=' !in b
    requires b != "p" && b != key
    ensures BuildParameters(TokenOf([("p", page), (key, a + "&" + b + "=" + c)]))
      == Ok(map["p" := page, key := a, b := c])
    ensures var r := BuildParameters(TokenOf([("p", page), (key, a + "&" + b + "=" + c)]));
      r.Ok? && "p" in r.value && r.value["p"] == page && key in r.value && r.value[key] == a
  {
    TokenOfTwo("p", page, key, a + "&" + b + "=" + c);
    assert TokenOf([("p", page), (key, a + "&" + b + "=" + c)])
      == "p" + "=" + page + "&" + key + "=" + a + "&" + b + "=" + c;
    assert Encodable([("p", page), (key, a), (b, c)]);
    ThreeParametersReadBack("p", page, key, a, b, c);
    ThreeKeysLookUp("p", page, key, a, b, c);
  }

  lemma ThreeKeysLookUp(k1: string, v1: string, k2: string, v2: string, k3: string, v3: string)
    requires k1 != k2 && k1 != k3 && k2 != k3
    ensures var m := map[k1 := v1, k2 := v2, k3 := v3];
      k1 in m && m[k1] == v1 && k2 in m && m[k2] == v2 && k3 in m && m[k3] == v3
  {
  }

  /** `URL.encode` leaves '&' and '=' (and letters) as they are, so they reach
      the token unchanged: a query `a&b=c` opens the search page for `a`
      alone, for any such `a`, `b` and `c`. */
  lemma AmpersandInQueryIsMisread(a: string, b: string, c: string)
    requires '&' !in a && '&' !in b && '&' !in c && '=' !in b
    requires b != "p" && b != "q"
    ensures HandleHistoryToken(SearchResultToken(a + "&" + b + "=" + c)) == Ok(SearchPage(Some(a)))
  {
    var token := SearchResultToken(a + "&" + b + "=" + c);
    ValueWithSeparatorsReadBack("search", "q", a, b, c);
    SearchPageOf(token, BuildParameters(token).value);
  }

  /** A token that reads back as a map whose "p" is "search" opens the search
      page for the map's "q". */
  lemma SearchPageOf(token: string, parameters: map<string, string>)
    requires BuildParameters(token) == Ok(parameters)
    requires "p" in parameters && parameters["p"] == "search" && "q" in parameters
    ensures HandleHistoryToken(token) == Ok(SearchPage(Some(parameters["q"])))
  {
  }

  /** A query `a&b` with no '=' in `b` leaves a part without '=', so opening
      its token throws. */
  lemma AmpersandInQueryThrows(a: string, b: string)
    requires '&' !in a && '&' !in b && '=' !in b && b != ""
    ensures HandleHistoryToken(SearchResultToken(a + "&" + b)) == Err(IndexOutOfBounds)
  {
    var token := SearchResultToken(a + "&" + b);
    var first, second := "p=search", "q=" + a;
    TokenOfTwo("p", "search", "q", a + "&" + b);
    assert token == first + ['&'] + (second + ['&'] + b);
    PartsOfThree(first, second, b);
    PartWithoutEqualsFails(token, 2);
  }

  /** Three non-empty pieces without '&', joined by '&', split back apart. */
  lemma PartsOfThree(x: string, y: string, z: string)
    requires x != "" && y != "" && z != ""
    requires '&' !in x && '&' !in y && '&' !in z
    ensures Parts(x + ['&'] + (y + ['&'] + z)) == [x, y, z]
  {
    SplitOfThree(x, y, z);
    Text.OmitEmptyOfNonEmpty([x, y, z]);
  }

  lemma SplitOfThree(x: string, y: string, z: string)
    requires '&' !in x && '&' !in y && '&' !in z
    ensures Text.Split(x + ['&'] + (y + ['&'] + z), '&') == [x, y, z]
  {
    Text.SplitAfterPrefix(x, '&', y + ['&'] + z);
    Text.SplitAfterPrefix(y, '&', z);
    assert Text.Split(z, '&') == [z];
  }

  /** The same for a source file whose name is `a&b=c`. */
  lemma AmpersandInFileNameIsMisread(a: string, b: string, c: string)
    requires '&' !in a && '&' !in b && '&' !in c && '=' !in b
    requires b != "p" && b != "file"
    ensures HandleHistoryToken(ViewSourceToken(a + "&" + b + "=" + c)) == Ok(SourcePage(Some(a)))
  {
    var token := ViewSourceToken(a + "&" + b + "=" + c);
    ValueWithSeparatorsReadBack("source", "file", a, b, c);
    SourcePageOf(token, BuildParameters(token).value);
  }

  /** A token that reads back as a map whose "p" is "source" opens the source
      page for the map's "file". */
  lemma SourcePageOf(token: string, parameters: map<string, string>)
    requires BuildParameters(token) == Ok(parameters)
    requires "p" in parameters && parameters["p"] == "source" && "file" in parameters
    ensures HandleHistoryToken(token) == Ok(SourcePage(Some(parameters["file"])))
  {
    DispatchSource(parameters);
  }

  /** A character as it goes into a parameter value: '%', '&' and '=' are
      percent-encoded, everything else stays. */
  function Escape(c: char): string
  {
    if c == '%' then "%25" else if c == '&' then "%26" else if c == '=' then "%3D" else [c]
  }

  /** A parameter value with the characters a token gives meaning to escaped. */
  function EncodeComponent(s: string): (r: string)
    ensures '&' !in r && '=' !in r
  {
    if |s| == 0 then "" else Escape(s[0]) + EncodeComponent(s[1..])
  }

  /** Undoes the three escapes; any other text is kept. */
  function DecodeComponent(s: string): string
    decreases |s|
  {
    if |s| == 0 then ""
    else if |s| >= 3 && s[..3] == "%25" then "%" + DecodeComponent(s[3..])
    else if |s| >= 3 && s[..3] == "%26" then "&" + DecodeComponent(s[3..])
    else if |s| >= 3 && s[..3] == "%3D" then "=" + DecodeComponent(s[3..])
    else [s[0]] + DecodeComponent(s[1..])
  }

  lemma DecodeEscape(c: char, rest: string)
    ensures DecodeComponent(Escape(c) + rest) == [c] + DecodeComponent(rest)
  {
    var s := Escape(c) + rest;
    if c == '%' || c == '&' || c == '=' {
      assert s[..3] == Escape(c) && s[3..] == rest;
    } else {
      assert s[0] == c && s[1..] == rest;
    }
  }

  /** Decoding inverts encoding, so no value is lost. */
  lemma {:induction false} DecodeEncodeComponent(s: string)
    ensures DecodeComponent(EncodeComponent(s)) == s
    decreases |s|
  {
    if |s| > 0 {
      DecodeEscape(s[0], EncodeComponent(s[1..]));
      DecodeEncodeComponent(s[1..]);
      assert s == [s[0]] + s[1..];
    }
  }

  /** switchToSearchResult with the query escaped as a parameter value. */
  function EscapedSearchResultToken(query: string): string
  {
    SearchResultToken(EncodeComponent(query))
  }

  /** switchToViewSource with the file name escaped as a parameter value. */
  function EscapedViewSourceToken(fileName: string): string
  {
    ViewSourceToken(EncodeComponent(fileName))
  }

  /** With escaping every query, '&' and '=' included, opens the search page
      and decodes back to itself. */
  lemma EscapedSearchResultRoundTrip(query: string)
    ensures HandleHistoryToken(EscapedSearchResultToken(query)) == Ok(SearchPage(Some(EncodeComponent(query))))
    ensures DecodeComponent(EncodeComponent(query)) == query
  {
    SearchResultRoundTrip(EncodeComponent(query));
    DecodeEncodeComponent(query);
  }

  /** With escaping every file name opens the source page and decodes back to
      itself. */
  lemma EscapedViewSourceRoundTrip(fileName: string)
    ensures HandleHistoryToken(EscapedViewSourceToken(fileName)) == Ok(SourcePage(Some(EncodeComponent(fileName))))
    ensures DecodeComponent(EncodeComponent(fileName)) == fileName
  {
    ViewSourceRoundTrip(EncodeComponent(fileName));
    DecodeEncodeComponent(fileName);
  }
}
