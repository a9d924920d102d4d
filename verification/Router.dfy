/** Path templates: matching a request path against them, binding their parameters, and choosing a handler. */
module Router {
  import Text

  type Bindings = map<string, string>

  /** A template token that opens a brace stands for a parameter. */
  predicate IsParam(token: string) {
    token != "" && token[0] == '{'
  }

  /** The text between the braces. */
  function ParamName(token: string): string {
    if |token| <= 2 then "" else token[1..|token| - 1]
  }

  /** The key under which a parameter's value is bound. */
  function ParamKey(token: string): string {
    Text.ToLower(ParamName(token))
  }

  /** How a handler asks for a parameter; the case of the name does not matter. */
  function GetBinding(b: Bindings, name: string, default: string): string {
    if Text.ToLower(name) in b then b[Text.ToLower(name)] else default
  }

  predicate TokenMatches(item: string, token: string) {
    item == token || IsParam(token)
  }

  /** A path and a template, both as tokens, match. */
  predicate Matches(items: seq<string>, params: seq<string>) {
    |items| == |params| && forall i :: 0 <= i < |items| ==> TokenMatches(items[i], params[i])
  }

  /** The bindings after the first `n` tokens; a token equal to its placeholder binds nothing. */
  function Bind(items: seq<string>, params: seq<string>, n: nat, b: Bindings): Bindings
    requires n <= |items| == |params|
  {
    if n == 0 then b
    else
      var before := Bind(items, params, n - 1, b);
      if items[n - 1] != params[n - 1] && IsParam(params[n - 1]) then before[ParamKey(params[n - 1]) := items[n - 1]]
      else before
  }

  /** How many leading tokens match. */
  function MatchingTokens(items: seq<string>, params: seq<string>): (n: nat)
    requires |items| == |params|
    ensures n <= |items|
    ensures forall i :: 0 <= i < n ==> TokenMatches(items[i], params[i])
    ensures n < |items| ==> !TokenMatches(items[n], params[n])
  {
    if items == [] || !TokenMatches(items[0], params[0]) then 0 else 1 + MatchingTokens(items[1..], params[1..])
  }

  datatype Result = Result(matched: bool, bindings: Bindings)

  /** Templates are tried in order; what an earlier one bound before it failed stays bound. */
  function Parse(items: seq<string>, templates: seq<string>, b: Bindings): Result {
    if templates == [] then Result(false, b)
    else
      var params := Text.Tokens(templates[0], '/');
      if |items| != |params| then Parse(items, templates[1..], b)
      else
        var n := MatchingTokens(items, params);
        var b' := Bind(items, params, n, b);
        if n == |items| then Result(true, b') else Parse(items, templates[1..], b')
  }

  method ParseBindings(request: string, templates: seq<string>) returns (matched: bool, bindings: Bindings)
    ensures Result(matched, bindings) == Parse(Text.Tokens(request, '/'), templates, map[])
    ensures matched <==> exists k :: 0 <= k < |templates| && Matches(Text.Tokens(request, '/'), Text.Tokens(templates[k], '/'))
  {
    hide ParamKey, Text.Tokens;
    bindings := map[];
    var items := Text.Tokens(request, '/');
    for k := 0 to |templates|
      invariant Parse(items, templates, map[]) == Parse(items, templates[k..], bindings)
      invariant forall l :: 0 <= l < k ==> !Matches(items, Text.Tokens(templates[l], '/'))
    {
      assert templates[k..][1..] == templates[k + 1..];
      var params := Text.Tokens(templates[k], '/');
      if |items| != |params| {
        continue;
      }
      var ok := true;
      var i := 0;
      ghost var b := bindings;
      while i < |items|
        invariant 0 <= i <= |items|
        invariant bindings == Bind(items, params, i, b)
        invariant forall l :: 0 <= l < i ==> TokenMatches(items[l], params[l])
        invariant ok
      {
        if items[i] != params[i] {
          if IsParam(params[i]) {
            bindings := bindings[ParamKey(params[i]) := items[i]];
          } else {
            ok := false;
            break;
          }
        }
        i := i + 1;
      }
      assert MatchingTokens(items, params) == i;
      if ok {
        assert Matches(items, params);
        return true, bindings;
      }
    }
    assert templates[|templates|..] == [];
    return false, bindings;
  }

  lemma {:induction false} ParseMatchesIff(items: seq<string>, templates: seq<string>, b: Bindings)
    ensures Parse(items, templates, b).matched <==>
      exists k :: 0 <= k < |templates| && Matches(items, Text.Tokens(templates[k], '/'))
  {
    if templates != [] {
      var params := Text.Tokens(templates[0], '/');
      if |items| == |params| {
        ParseMatchesIff(items, templates[1..], Bind(items, params, MatchingTokens(items, params), b));
      } else {
        ParseMatchesIff(items, templates[1..], b);
      }
      if k :| 0 <= k < |templates| && Matches(items, Text.Tokens(templates[k], '/')) {
        if k > 0 {
          assert templates[1..][k - 1] == templates[k];
        }
      }
      if k :| 0 <= k < |templates[1..]| && Matches(items, Text.Tokens(templates[1..][k], '/')) {
        assert templates[k + 1] == templates[1..][k];
      }
    }
  }

  // ---------- Filling a template and reading it back ----------

  function Fill(params: seq<string>, values: Bindings): seq<string> {
    seq(|params|, i requires 0 <= i < |params| =>
      if IsParam(params[i]) && ParamKey(params[i]) in values then values[ParamKey(params[i])] else params[i])
  }

  predicate DistinctParams(params: seq<string>) {
    forall i, j :: 0 <= i < j < |params| && IsParam(params[i]) && IsParam(params[j]) ==> ParamKey(params[i]) != ParamKey(params[j])
  }

  predicate HasParam(params: seq<string>, key: string) {
    exists i :: 0 <= i < |params| && IsParam(params[i]) && ParamKey(params[i]) == key
  }

  /** Values for exactly the template's parameters, free of slashes and unlike their placeholders. */
  predicate GoodValues(params: seq<string>, values: Bindings) {
    && (forall i :: 0 <= i < |params| && IsParam(params[i]) ==>
          && ParamKey(params[i]) in values
          && values[ParamKey(params[i])] != params[i] && '/' !in values[ParamKey(params[i])])
    && (forall key :: key in values ==> HasParam(params, key))
  }

  predicate SlashFree(params: seq<string>) {
    forall i :: 0 <= i < |params| ==> '/' !in params[i]
  }

  lemma {:induction false} BoundValue(items: seq<string>, params: seq<string>, n: nat, i: nat)
    requires n <= |items| == |params| && i < |params| && IsParam(params[i]) && DistinctParams(params)
    ensures var b := Bind(items, params, n, map[]);
      if i < n && items[i] != params[i] then ParamKey(params[i]) in b && b[ParamKey(params[i])] == items[i]
      else ParamKey(params[i]) !in b
  {
    if n > 0 {
      BoundValue(items, params, n - 1, i);
    }
  }

  lemma {:induction false} BoundKeys(items: seq<string>, params: seq<string>, n: nat, key: string)
    requires n <= |items| == |params| && key in Bind(items, params, n, map[])
    ensures HasParam(params, key)
  {
    if key !in Bind(items, params, n - 1, map[]) {
      assert IsParam(params[n - 1]) && ParamKey(params[n - 1]) == key;
    } else {
      BoundKeys(items, params, n - 1, key);
    }
  }

  /** A filled template binds exactly what it was filled with. */
  lemma BindFilled(params: seq<string>, values: Bindings)
    requires DistinctParams(params) && GoodValues(params, values)
    ensures Bind(Fill(params, values), params, |params|, map[]) == values
  {
    hide ParamKey, Bind, IsParam;
    var items := Fill(params, values);
    var b := Bind(items, params, |params|, map[]);
    forall key | key in values ensures key in b && b[key] == values[key] {
      assert HasParam(params, key);
      var i :| 0 <= i < |params| && IsParam(params[i]) && ParamKey(params[i]) == key;
      BoundValue(items, params, |params|, i);
      assert items[i] == values[key];
    }
    forall key | key in b ensures key in values {
      BoundKeys(items, params, |params|, key);
    }
  }

  /** The texts that tokens stand for: the single empty token stands for none, since the empty text has no tokens. */
  predicate Splittable(parts: seq<string>) {
    parts != [] && parts != [""] && SlashFree(parts)
  }

  /** Reading a filled template gives back exactly the values it was filled with. */
  lemma FillThenParse(params: seq<string>, values: Bindings)
    requires Splittable(params) && DistinctParams(params) && GoodValues(params, values) && Fill(params, values) != [""]
    ensures Text.Tokens(Text.Join(params, '/'), '/') == params
    ensures Parse(Text.Tokens(Text.Join(Fill(params, values), '/'), '/'), [Text.Join(params, '/')], map[]) ==
      Result(true, values)
    ensures forall i :: 0 <= i < |params| && IsParam(params[i]) ==>
      GetBinding(values, ParamName(params[i]), "") == Fill(params, values)[i]
  {
    var items := Fill(params, values);
    TokensOfJoin(params);
    FillIsSlashFree(params, values);
    TokensOfJoin(items);
    BindFilled(params, values);
    BindingsAreItems(params, values);
    ParseOne(items, Text.Join(params, '/'), params);
    hide *;
  }

  lemma BindingsAreItems(params: seq<string>, values: Bindings)
    requires GoodValues(params, values)
    ensures forall i :: 0 <= i < |params| && IsParam(params[i]) ==>
      GetBinding(values, ParamName(params[i]), "") == Fill(params, values)[i]
  {
    hide Text.ToLower, ParamName, IsParam;
  }

  /** Reading tokens with a single template. */
  lemma ParseOne(items: seq<string>, path: string, params: seq<string>)
    requires Text.Tokens(path, '/') == params
    ensures Parse(items, [path], map[]).matched <==> Matches(items, params)
    ensures Matches(items, params) ==> Parse(items, [path], map[]) == Result(true, Bind(items, params, |params|, map[]))
  {
    hide Bind, Text.Tokens, TokenMatches;
    NothingToParse(items, map[]);
    if |items| == |params| {
      var n := MatchingTokens(items, params);
      NothingToParse(items, Bind(items, params, n, map[]));
    }
    assert [path][0] == path && [path][1..] == [];
  }

  lemma NothingToParse(items: seq<string>, b: Bindings)
    ensures Parse(items, [], b) == Result(false, b)
  {
  }

  lemma TokensOfJoin(parts: seq<string>)
    requires Splittable(parts)
    ensures Text.Tokens(Text.Join(parts, '/'), '/') == parts
  {
    Text.PiecesOfJoin(parts, '/');
    if |parts| >= 2 {
      assert Text.Join(parts, '/') == parts[0] + ['/'] + Text.Join(parts[1..], '/');
    } else {
      assert Text.Join(parts, '/') == parts[0] && parts == [parts[0]];
    }
  }

  lemma FillIsSlashFree(params: seq<string>, values: Bindings)
    requires SlashFree(params) && GoodValues(params, values)
    ensures |Fill(params, values)| == |params|
    ensures SlashFree(Fill(params, values)) && Matches(Fill(params, values), params)
  {
    var items := Fill(params, values);
    forall i | 0 <= i < |params| ensures '/' !in items[i] && TokenMatches(items[i], params[i]) {
    }
  }

  /** The other way round: filling the template with what a match bound gives back the path. */
  lemma ParseThenFill(request: string, params: seq<string>)
    requires Splittable(params) && DistinctParams(params)
    requires Parse(Text.Tokens(request, '/'), [Text.Join(params, '/')], map[]).matched
    ensures Text.Join(Fill(params, Parse(Text.Tokens(request, '/'), [Text.Join(params, '/')], map[]).bindings), '/') == request
  {
    var items := Text.Tokens(request, '/');
    TokensOfJoin(params);
    ParseOne(items, Text.Join(params, '/'), params);
    FillBound(items, params);
    Text.JoinOfPieces(request, '/');
    hide Fill, Bind, Parse, Matches, Text.Join, Text.Pieces, DistinctParams;
  }

  lemma FillBound(items: seq<string>, params: seq<string>)
    requires DistinctParams(params) && Matches(items, params)
    ensures Fill(params, Bind(items, params, |params|, map[])) == items
  {
    hide ParamKey, Bind, IsParam;
    var b := Bind(items, params, |params|, map[]);
    forall i | 0 <= i < |params| ensures Fill(params, b)[i] == items[i] {
      if IsParam(params[i]) {
        BoundValue(items, params, |params|, i);
      }
    }
  }

  // ---------- Choosing a handler ----------

  /** A handler and its templates. */
  datatype Route<H> = Route(handler: H, templates: seq<string>)

  datatype Choice<H> = Chosen(handler: H, bindings: Bindings) | UnknownRequest

  function Choose<H>(request: string, table: seq<Route<H>>): Choice<H> {
    if table == [] then UnknownRequest
    else
      var r := Parse(Text.Tokens(request, '/'), table[0].templates, map[]);
      if r.matched then Chosen(table[0].handler, r.bindings) else Choose(request, table[1..])
  }

  predicate RouteMatches<H>(request: string, route: Route<H>) {
    Parse(Text.Tokens(request, '/'), route.templates, map[]).matched
  }

  /** No path matches two routes of the table. */
  ghost predicate Unambiguous<H(!new)>(table: set<Route<H>>) {
    forall request, r, s :: r in table && s in table && RouteMatches(request, r) && RouteMatches(request, s) ==> r == s
  }

  /** The routes of a table, without their order. */
  ghost function RouteSet<H>(table: seq<Route<H>>): set<Route<H>> {
    set r | r in table
  }

  lemma {:induction false} ChoiceIsTheMatch<H(!new)>(request: string, table: seq<Route<H>>, route: Route<H>)
    requires Unambiguous(RouteSet(table)) && route in table && RouteMatches(request, route)
    ensures Choose(request, table) ==
      Chosen(route.handler, Parse(Text.Tokens(request, '/'), route.templates, map[]).bindings)
  {
    if RouteMatches(request, table[0]) {
      assert table[0] in RouteSet(table) && route in RouteSet(table);
    } else {
      assert forall r :: r in RouteSet(table[1..]) ==> r in RouteSet(table);
      ChoiceIsTheMatch(request, table[1..], route);
    }
  }

  lemma {:induction false} NoMatchNoChoice<H>(request: string, table: seq<Route<H>>)
    requires forall r :: r in table ==> !RouteMatches(request, r)
    ensures Choose(request, table) == UnknownRequest
  {
    if table != [] {
      assert table[0] in table;
      NoMatchNoChoice(request, table[1..]);
    }
  }

  /** In an unambiguous table the choice does not depend on the order of the routes. */
  lemma OrderDoesNotMatter<H(!new)>(request: string, table: seq<Route<H>>, table': seq<Route<H>>)
    requires RouteSet(table) == RouteSet(table') && Unambiguous(RouteSet(table))
    ensures Choose(request, table) == Choose(request, table')
  {
    assert forall r :: (r in table <==> r in RouteSet(table)) && (r in table' <==> r in RouteSet(table'));
    if route :| route in table && RouteMatches(request, route) {
      ChoiceIsTheMatch(request, table, route);
      ChoiceIsTheMatch(request, table', route);
    } else {
      NoMatchNoChoice(request, table);
      NoMatchNoChoice(request, table');
    }
  }

  /** Two templates no path can match both: different lengths, or a place where both have different fixed tokens. */
  predicate Apart(s: seq<string>, t: seq<string>) {
    |s| != |t| || exists i :: 0 <= i < |s| && !IsParam(s[i]) && !IsParam(t[i]) && s[i] != t[i]
  }

  lemma ApartNeverBoth(items: seq<string>, s: seq<string>, t: seq<string>)
    requires Apart(s, t)
    ensures !(Matches(items, s) && Matches(items, t))
  {
  }

  // ---------- What a failed template leaves ----------

  lemma {:induction false} BindNothing(items: seq<string>, n: nat, b: Bindings)
    requires n <= |items|
    ensures Bind(items, items, n, b) == b
  {
    if n > 0 {
      BindNothing(items, n - 1, b);
    }
  }

  /** A template that fails after `n` tokens, and one that matches: what the first has bound stays bound. */
  lemma LeftoversStay(items: seq<string>, first: string, second: string, p: seq<string>, q: seq<string>)
    requires Text.Tokens(first, '/') == p && Text.Tokens(second, '/') == q && |items| == |p|
    requires !Matches(items, p) && Matches(items, q)
    ensures Parse(items, [first, second], map[]) ==
      Result(true, Bind(items, q, |items|, Bind(items, p, MatchingTokens(items, p), map[])))
  {
    var templates := [first, second];
    assert templates[1..] == [second] && [second][1..] == [];
    var n := MatchingTokens(items, p);
    assert n < |items| && MatchingTokens(items, q) == |items|;
    hide Text.Tokens, Bind, MatchingTokens, TokenMatches;
  }

  /** The path "/v/x" against two templates of one handler: the first binds `p` before it fails, and `p` stays bound. */
  lemma FailedTemplateLeavesBindings()
    ensures Parse(Text.Tokens("/v/x", '/'), ["/{p}/y", "/{q}/x"], map[]) == Result(true, map["p" := "v", "q" := "v"])
  {
    JoinOfThree("v", "x");
    JoinOfThree("{p}", "y");
    JoinOfThree("{q}", "x");
    assert "/" + "v" + "/" + "x" == "/v/x" && "/" + "{p}" + "/" + "y" == "/{p}/y" && "/" + "{q}" + "/" + "x" == "/{q}/x";
    FirstLeaves();
    LeftoversStay(["", "v", "x"], "/{p}/y", "/{q}/x", ["", "{p}", "y"], ["", "{q}", "x"]);
    SecondAdds();
    hide *;
  }

  lemma JoinOfThree(a: string, b: string)
    requires '/' !in a && '/' !in b
    ensures Text.Tokens("/" + a + "/" + b, '/') == ["", a, b]
  {
    assert ["", a, b][1..] == [a, b] && [a, b][1..] == [b];
    assert Text.Join([b], '/') == b;
    assert Text.Join([a, b], '/') == a + ['/'] + b;
    assert Text.Join(["", a, b], '/') == "" + ['/'] + Text.Join([a, b], '/');
    assert "" + ['/'] + (a + ['/'] + b) == "/" + a + "/" + b;
    TokensOfJoin(["", a, b]);
  }

  lemma FirstLeaves()
    ensures !Matches(["", "v", "x"], ["", "{p}", "y"]) && Matches(["", "v", "x"], ["", "{q}", "x"])
    ensures MatchingTokens(["", "v", "x"], ["", "{p}", "y"]) == 2
    ensures Bind(["", "v", "x"], ["", "{p}", "y"], 2, map[]) == map["p" := "v"]
  {
    var items, params := ["", "v", "x"], ["", "{p}", "y"];
    assert items[2] == "x" && params[2] == "y" && !TokenMatches(items[2], params[2]);
    ParamKeyOf('p');
    assert params[1] == ['{', 'p', '}'];
    hide ParamKey;
    assert Bind(items, params, 1, map[]) == map[];
  }

  lemma SecondAdds()
    ensures Bind(["", "v", "x"], ["", "{q}", "x"], 3, map["p" := "v"]) == map["p" := "v", "q" := "v"]
  {
    var items, params, b := ["", "v", "x"], ["", "{q}", "x"], map["p" := "v"];
    ParamKeyOf('q');
    assert params[1] == ['{', 'q', '}'];
    hide ParamKey;
    assert Bind(items, params, 1, b) == b;
    assert Bind(items, params, 2, b) == b["q" := "v"];
  }

  lemma ParamKeyOf(c: char)
    requires 'a' <= c <= 'z'
    ensures ParamKey(['{', c, '}']) == [c]
  {
    assert ['{', c, '}'][1..2] == [c];
    assert Text.ToLower([c]) == [c];
  }
}
