/** The route tables of the external and the internal server. */
module RouteTables {
  import opened Router
  import Text

  datatype Handler =
    | Oauth2 | User | Users | SystemCommand | SystemConfiguration | AssetServer | SystemEndpoints
    | ActionLinks | Avatar | SubAvatar | Email | Sms | Preferences | SubPreferences
    | SubOauth2 | SubUser | SubUsers | SubMfa | Totp | SubTotp | Signup
    | ValidateSubToken | ValidateToken | ValidateApiKey | WebSocket | ApiKey | SystemSecret

  /** The fixed token by which each handler's paths are told apart. */
  function Word(h: Handler): string {
    match h
    case Oauth2 => "oauth2"
    case User => "user"
    case Users => "users"
    case SystemCommand => "system"
    case SystemConfiguration => "systemConfiguration"
    case AssetServer => "wwwassets"
    case SystemEndpoints => "systemEndpoints"
    case ActionLinks => "actionLink"
    case Avatar => "avatar"
    case SubAvatar => "subavatar"
    case Email => "email"
    case Sms => "sms"
    case Preferences => "preferences"
    case SubPreferences => "subpreferences"
    case SubOauth2 => "suboauth2"
    case SubUser => "subuser"
    case SubUsers => "subusers"
    case SubMfa => "submfa"
    case Totp => "totp"
    case SubTotp => "subtotp"
    case Signup => "signup"
    case ValidateSubToken => "validateSubToken"
    case ValidateToken => "validateToken"
    case ValidateApiKey => "validateApiKey"
    case WebSocket => "ws"
    case ApiKey => "apiKey"
    case SystemSecret => "systemSecret"
  }

  function Api(word: string): string {
    "/api/v1/" + word
  }

  function ApiWith(word: string, param: string): string {
    "/api/v1/" + word + "/" + param
  }

  /** The path templates of each handler, as its class declares them. */
  function PathNames(h: Handler): seq<string> {
    match h
    case AssetServer => ["/wwwassets/{id}", "/favicon.ico"]
    case Oauth2 | SubOauth2 => [ApiWith(Word(h), "{token}"), Api(Word(h))]
    case User | Avatar | SubAvatar | SubUser => [ApiWith(Word(h), "{id}")]
    case ApiKey => [ApiWith(Word(h), "{uuid}")]
    case SystemSecret => [ApiWith(Word(h), "{secret}")]
    case _ => [Api(Word(h))]
  }

  function ApiTokens(word: string): seq<string> {
    ["", "api", "v1", word]
  }

  function ApiTokensWith(word: string, param: string): seq<string> {
    ["", "api", "v1", word, param]
  }

  /** The same templates as tokens. */
  function PathTokens(h: Handler): seq<seq<string>> {
    match h
    case AssetServer => [["", "wwwassets", "{id}"], ["", "favicon.ico"]]
    case Oauth2 | SubOauth2 => [ApiTokensWith(Word(h), "{token}"), ApiTokens(Word(h))]
    case User | Avatar | SubAvatar | SubUser => [ApiTokensWith(Word(h), "{id}")]
    case ApiKey => [ApiTokensWith(Word(h), "{uuid}")]
    case SystemSecret => [ApiTokensWith(Word(h), "{secret}")]
    case _ => [ApiTokens(Word(h))]
  }

  const EXTERNAL: seq<Handler> :=
    [Oauth2, User, Users, SystemCommand, SystemConfiguration, AssetServer, SystemEndpoints, ActionLinks,
     Avatar, SubAvatar, Email, Sms, Preferences, SubPreferences, SubOauth2, SubUser, SubUsers, SubMfa,
     Totp, SubTotp, Signup, ValidateSubToken, ValidateToken, ValidateApiKey, WebSocket, ApiKey, SystemSecret]

  const INTERNAL: seq<Handler> :=
    [Oauth2, User, Users, SystemCommand, SystemConfiguration, AssetServer, SystemEndpoints, ActionLinks,
     Avatar, SubAvatar, Email, Sms, Preferences, SubPreferences, SubOauth2, SubUser, SubUsers, SubMfa,
     Totp, SubTotp, ValidateSubToken, ValidateToken, ValidateApiKey, Signup, SystemSecret]

  function Routes(handlers: seq<Handler>): seq<Route<Handler>> {
    seq(|handlers|, i requires 0 <= i < |handlers| => Route(handlers[i], PathNames(handlers[i])))
  }

  // ---------- No path has two handlers ----------

  lemma NamesAreTokens(h: Handler, k: nat)
    requires k < |PathNames(h)|
    ensures k < |PathTokens(h)|
    ensures Text.Tokens(PathNames(h)[k], '/') == PathTokens(h)[k]
  {
    WordIsSlashFree(h);
    hide Word, Text.Tokens;
    match h
    case AssetServer => AssetTokens();
    case Oauth2 | SubOauth2 =>
      ApiWithIsJoined(Word(h), "{token}");
      ApiIsJoined(Word(h));
    case User | Avatar | SubAvatar | SubUser => ApiWithIsJoined(Word(h), "{id}");
    case ApiKey => ApiWithIsJoined(Word(h), "{uuid}");
    case SystemSecret => ApiWithIsJoined(Word(h), "{secret}");
    case _ => ApiIsJoined(Word(h));
  }

  lemma ShortWordIsSlashFree(h: Handler)
    requires |Word(h)| <= 8
    ensures '/' !in Word(h)
  {
  }

  lemma LongWordIsSlashFree(h: Handler)
    requires |Word(h)| > 8
    ensures '/' !in Word(h)
  {
  }

  lemma WordIsSlashFree(h: Handler)
    ensures '/' !in Word(h)
  {
    hide Word;
    if |Word(h)| <= 8 {
      ShortWordIsSlashFree(h);
    } else {
      LongWordIsSlashFree(h);
    }
  }

  lemma AssetTokens()
    ensures Text.Tokens("/wwwassets/{id}", '/') == ["", "wwwassets", "{id}"]
    ensures Text.Tokens("/favicon.ico", '/') == ["", "favicon.ico"]
  {
    assert Text.Join(["", "wwwassets", "{id}"], '/') == "/wwwassets/{id}";
    assert Text.Join(["", "favicon.ico"], '/') == "/favicon.ico";
    TokensOfJoin(["", "wwwassets", "{id}"]);
    TokensOfJoin(["", "favicon.ico"]);
  }

  lemma JoinPair(first: string, rest: seq<string>)
    requires rest != []
    ensures Text.Join([first] + rest, '/') == first + "/" + Text.Join(rest, '/')
  {
    assert ([first] + rest)[1..] == rest;
  }

  lemma ApiIsJoined(word: string)
    requires '/' !in word
    ensures Text.Tokens(Api(word), '/') == ApiTokens(word)
  {
    JoinPair("v1", [word]);
    JoinPair("api", ["v1"] + [word]);
    JoinPair("", ["api"] + (["v1"] + [word]));
    assert ApiTokens(word) == [""] + (["api"] + (["v1"] + [word]));
    assert "" + "/" + ("api" + "/" + ("v1" + "/" + word)) == Api(word);
    TokensOfJoin(ApiTokens(word));
  }

  lemma ApiWithIsJoined(word: string, param: string)
    requires '/' !in word && '/' !in param
    ensures Text.Tokens(ApiWith(word, param), '/') == ApiTokensWith(word, param)
  {
    JoinPair(word, [param]);
    JoinPair("v1", [word] + [param]);
    JoinPair("api", ["v1"] + ([word] + [param]));
    JoinPair("", ["api"] + (["v1"] + ([word] + [param])));
    assert ApiTokensWith(word, param) == [""] + (["api"] + (["v1"] + ([word] + [param])));
    assert "" + "/" + ("api" + "/" + ("v1" + "/" + (word + "/" + param))) == ApiWith(word, param);
    TokensOfJoin(ApiTokensWith(word, param));
  }

  lemma WordIsFixed(h: Handler)
    ensures !IsParam(Word(h))
  {
  }

  lemma LettersDiffer(h: Handler, g: Handler)
    requires h != g && |Word(h)| == |Word(g)|
    ensures Word(h)[1] != Word(g)[1] || Word(h)[0] != Word(g)[0] || Word(h)[3] != Word(g)[3]
  {
  }

  lemma WordsDiffer(h: Handler, g: Handler)
    requires h != g
    ensures Word(h) != Word(g)
  {
    hide Word;
    if |Word(h)| == |Word(g)| {
      LettersDiffer(h, g);
    }
  }

  /** Every template is short (the assets) or has its handler's word as its fourth token. */
  lemma TemplateShape(h: Handler, k: nat)
    requires k < |PathTokens(h)|
    ensures if h == AssetServer then |PathTokens(h)[k]| < 4
            else |PathTokens(h)[k]| >= 4 && PathTokens(h)[k][3] == Word(h)
  {
    hide Word;
  }

  lemma TemplatesApart(h: Handler, k: nat, g: Handler, l: nat)
    requires h != g && k < |PathTokens(h)| && l < |PathTokens(g)|
    ensures Apart(PathTokens(h)[k], PathTokens(g)[l])
  {
    TemplateShape(h, k);
    TemplateShape(g, l);
    if h != AssetServer && g != AssetServer {
      WordIsFixed(h);
      WordIsFixed(g);
      WordsDiffer(h, g);
      hide PathTokens, Word, IsParam;
      assert Apart(PathTokens(h)[k], PathTokens(g)[l]);
    }
  }

  lemma OneHandlerPerPath(request: string, h: Handler, g: Handler)
    requires RouteMatches(request, Route(h, PathNames(h))) && RouteMatches(request, Route(g, PathNames(g)))
    ensures h == g
  {
    hide PathTokens, PathNames, Apart, Matches, Text.Tokens;
    var items := Text.Tokens(request, '/');
    ParseMatchesIff(items, PathNames(h), map[]);
    ParseMatchesIff(items, PathNames(g), map[]);
    var k :| 0 <= k < |PathNames(h)| && Matches(items, Text.Tokens(PathNames(h)[k], '/'));
    var l :| 0 <= l < |PathNames(g)| && Matches(items, Text.Tokens(PathNames(g)[l], '/'));
    NamesAreTokens(h, k);
    NamesAreTokens(g, l);
    if h != g {
      TemplatesApart(h, k, g, l);
      ApartNeverBoth(items, PathTokens(h)[k], PathTokens(g)[l]);
    }
  }

  /** No path matches two handlers of a table, whichever handlers it lists. */
  lemma TablesAreUnambiguous(handlers: seq<Handler>)
    ensures Unambiguous(RouteSet(Routes(handlers)))
  {
    hide PathNames;
    var table := Routes(handlers);
    forall request, r, s | r in RouteSet(table) && s in RouteSet(table) && RouteMatches(request, r) && RouteMatches(request, s)
      ensures r == s
    {
      var i :| 0 <= i < |table| && table[i] == r;
      var j :| 0 <= j < |table| && table[j] == s;
      OneHandlerPerPath(request, handlers[i], handlers[j]);
    }
  }

  /** Routing does not depend on the order in which either server lists its handlers. */
  lemma HandlerOrderDoesNotMatter(request: string, handlers: seq<Handler>, reordered: seq<Handler>)
    requires forall h :: h in handlers <==> h in reordered
    ensures Choose(request, Routes(handlers)) == Choose(request, Routes(reordered))
  {
    hide PathNames;
    TablesAreUnambiguous(handlers);
    assert RouteSet(Routes(handlers)) == RouteSet(Routes(reordered)) by {
      SameRoutes(handlers, reordered);
      SameRoutes(reordered, handlers);
    }
    OrderDoesNotMatter(request, Routes(handlers), Routes(reordered));
  }

  lemma SameRoutes(handlers: seq<Handler>, others: seq<Handler>)
    requires forall h :: h in handlers ==> h in others
    ensures RouteSet(Routes(handlers)) <= RouteSet(Routes(others))
  {
    hide PathNames;
    forall r | r in RouteSet(Routes(handlers)) ensures r in RouteSet(Routes(others)) {
      var i :| 0 <= i < |handlers| && Routes(handlers)[i] == r;
      assert handlers[i] in others;
      var j :| 0 <= j < |others| && others[j] == handlers[i];
      assert Routes(others)[j] == r;
    }
  }

  lemma InternalIsExternal()
    ensures forall h :: h in INTERNAL ==> h in EXTERNAL
  {
  }

  /** The internal server offers no handler that the external one does not. */
  lemma InternalWithinExternal(request: string)
    ensures Choose(request, Routes(INTERNAL)).Chosen? ==> Choose(request, Routes(EXTERNAL)) == Choose(request, Routes(INTERNAL))
  {
    hide PathNames, RouteMatches, Parse, Choose;
    if Choose(request, Routes(INTERNAL)).Chosen? {
      var route := ChosenRoute(request, Routes(INTERNAL));
      TablesAreUnambiguous(INTERNAL);
      TablesAreUnambiguous(EXTERNAL);
      InternalIsExternal();
      SameRoutes(INTERNAL, EXTERNAL);
      assert route in RouteSet(Routes(EXTERNAL));
      ChoiceIsTheMatch(request, Routes(INTERNAL), route);
      ChoiceIsTheMatch(request, Routes(EXTERNAL), route);
    }
  }

  lemma {:induction false} ChosenRoute(request: string, table: seq<Route<Handler>>) returns (route: Route<Handler>)
    requires Choose(request, table).Chosen?
    ensures route in table && RouteMatches(request, route)
  {
    if RouteMatches(request, table[0]) {
      route := table[0];
    } else {
      route := ChosenRoute(request, table[1..]);
    }
  }

  // ---------- The paths ----------

  /** The paths by which each handler is reached, as they are written in a request. */
  lemma UserPaths()
    ensures PathNames(Oauth2) == ["/api/v1/" + "oauth2" + "/" + "{token}", "/api/v1/" + "oauth2"] && PathNames(User) == ["/api/v1/" + "user" + "/" + "{id}"]
    ensures PathNames(Users) == ["/api/v1/" + "users"] && PathNames(Avatar) == ["/api/v1/" + "avatar" + "/" + "{id}"]
  {
  }

  lemma AccountPaths()
    ensures PathNames(Email) == ["/api/v1/" + "email"] && PathNames(Sms) == ["/api/v1/" + "sms"]
    ensures PathNames(Preferences) == ["/api/v1/" + "preferences"] && PathNames(Totp) == ["/api/v1/" + "totp"]
    ensures PathNames(ActionLinks) == ["/api/v1/" + "actionLink"] && PathNames(ApiKey) == ["/api/v1/" + "apiKey" + "/" + "{uuid}"]
  {
  }

  lemma SubscriberPaths()
    ensures PathNames(SubOauth2) == ["/api/v1/" + "suboauth2" + "/" + "{token}", "/api/v1/" + "suboauth2"]
    ensures PathNames(SubUser) == ["/api/v1/" + "subuser" + "/" + "{id}"] && PathNames(SubUsers) == ["/api/v1/" + "subusers"]
    ensures PathNames(SubAvatar) == ["/api/v1/" + "subavatar" + "/" + "{id}"] && PathNames(SubPreferences) == ["/api/v1/" + "subpreferences"]
  {
  }

  lemma SubscriberAccountPaths()
    ensures PathNames(SubMfa) == ["/api/v1/" + "submfa"] && PathNames(SubTotp) == ["/api/v1/" + "subtotp"]
    ensures PathNames(Signup) == ["/api/v1/" + "signup"]
  {
  }

  lemma SystemPaths()
    ensures PathNames(SystemCommand) == ["/api/v1/" + "system"] && PathNames(SystemConfiguration) == ["/api/v1/" + "systemConfiguration"]
    ensures PathNames(SystemEndpoints) == ["/api/v1/" + "systemEndpoints"]
    ensures PathNames(SystemSecret) == ["/api/v1/" + "systemSecret" + "/" + "{secret}"]
  {
  }

  lemma OtherPaths()
    ensures PathNames(AssetServer) == ["/wwwassets/{id}", "/favicon.ico"] && PathNames(WebSocket) == ["/api/v1/" + "ws"]
    ensures PathNames(ValidateToken) == ["/api/v1/" + "validateToken"] && PathNames(ValidateSubToken) == ["/api/v1/" + "validateSubToken"]
    ensures PathNames(ValidateApiKey) == ["/api/v1/" + "validateApiKey"]
  {
  }

  /** A handler with one path and no parameter is the one that a request for that path reaches. */
  lemma ServesItsPath(h: Handler, handlers: seq<Handler>)
    requires h in handlers && PathNames(h) == [Api(Word(h))]
    ensures Choose(Api(Word(h)), Routes(handlers)) == Chosen(h, map[])
  {
    var request, items, route := Api(Word(h)), ApiTokens(Word(h)), Route(h, PathNames(h));
    WordIsSlashFree(h);
    ApiIsJoined(Word(h));
    ParseOne(items, request, items);
    BindNothing(items, |items|, map[]);
    MatchesItself(items);
    Reaches(h, handlers, request, map[]);
    hide *;
  }

  lemma MatchesItself(items: seq<string>)
    ensures Matches(items, items)
  {
  }

  lemma Reaches(h: Handler, handlers: seq<Handler>, request: string, b: Bindings)
    requires h in handlers && Parse(Text.Tokens(request, '/'), PathNames(h), map[]) == Result(true, b)
    ensures Choose(request, Routes(handlers)) == Chosen(h, b)
  {
    hide PathNames, Parse, Text.Tokens, Choose;
    var i :| 0 <= i < |handlers| && handlers[i] == h;
    assert Routes(handlers)[i] == Route(h, PathNames(h));
    TablesAreUnambiguous(handlers);
    ChoiceIsTheMatch(request, Routes(handlers), Route(h, PathNames(h)));
  }

  /** A handler with one path and one parameter gets the value that the request has in its place. */
  lemma ServesItsPathWith(h: Handler, handlers: seq<Handler>, name: string, value: string)
    requires h in handlers && PathNames(h) == [ApiWith(Word(h), "{" + name + "}")]
    requires '/' !in name && '/' !in value && value != "{" + name + "}" && name != ""
    ensures Choose(ApiWith(Word(h), value), Routes(handlers)) == Chosen(h, map[Text.ToLower(name) := value])
  {
    var word, param := Word(h), "{" + name + "}";
    var items, params := ApiTokensWith(word, value), ApiTokensWith(word, param);
    WordIsSlashFree(h);
    ApiWithIsJoined(word, value);
    ApiWithIsJoined(word, param);
    ParseOne(items, ApiWith(word, param), params);
    BindLast(word, value, name);
    Reaches(h, handlers, ApiWith(word, value), map[Text.ToLower(name) := value]);
    hide *;
  }

  lemma BindLast(word: string, value: string, name: string)
    requires value != "{" + name + "}" && name != ""
    ensures var items, params := ApiTokensWith(word, value), ApiTokensWith(word, "{" + name + "}");
      Matches(items, params) && |params| == 5 && Bind(items, params, 5, map[]) == map[Text.ToLower(name) := value]
  {
    var param := "{" + name + "}";
    var items, params := ApiTokensWith(word, value), ApiTokensWith(word, param);
    assert param[1..|param| - 1] == name;
    hide Text.ToLower;
    assert Bind(items, params, 0, map[]) == map[] && Bind(items, params, 1, map[]) == map[];
    assert Bind(items, params, 2, map[]) == map[] && Bind(items, params, 3, map[]) == map[];
    assert Bind(items, params, 4, map[]) == map[];
    assert Bind(items, params, 5, map[]) == map[][Text.ToLower(name) := value];
    assert forall i :: 0 <= i < 4 ==> items[i] == params[i];
  }
}
