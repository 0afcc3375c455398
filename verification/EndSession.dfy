/** Logout requests read from form pairs (section 2 of OpenID Connect
    RP-Initiated Logout 1.0). */
module EndSession {
  import opened Wrappers
  import opened UrlEncoded

  datatype ApiError = BadRequest(message: string)

  datatype Parameter = IdTokenHint | LogoutHint | ClientId | PostLogoutRedirectUri | State | UiLocales

  datatype EndSessionRequest = EndSessionRequest(
    idTokenHint: Option<string>,
    logoutHint: Option<string>,
    clientId: Option<string>,
    postLogoutRedirectUri: Option<string>,
    state: Option<string>,
    uiLocales: Option<string>)
  {
    function Field(parameter: Parameter): Option<string> {
      match parameter
      case IdTokenHint => idTokenHint
      case LogoutHint => logoutHint
      case ClientId => clientId
      case PostLogoutRedirectUri => postLogoutRedirectUri
      case State => state
      case UiLocales => uiLocales
    }
  }

  function ParameterName(name: string): Option<Parameter> {
    match name
    case "id_token_hint" => Some(IdTokenHint)
    case "logout_hint" => Some(LogoutHint)
    case "client_id" => Some(ClientId)
    case "post_logout_redirect_uri" => Some(PostLogoutRedirectUri)
    case "state" => Some(State)
    case "ui_locales" => Some(UiLocales)
    case _ => None
  }

  function Name(parameter: Parameter): string {
    match parameter
    case IdTokenHint => "id_token_hint"
    case LogoutHint => "logout_hint"
    case ClientId => "client_id"
    case PostLogoutRedirectUri => "post_logout_redirect_uri"
    case State => "state"
    case UiLocales => "ui_locales"
  }

  predicate Names(pair: Pair, parameter: Parameter) {
    ParameterName(pair.0) == Some(parameter)
  }

  /** The known parameter that some earlier pair already set, first such pair. */
  function Repeated(pairs: seq<Pair>): Option<Parameter> {
    if pairs == [] then None
    else
      var front, last := pairs[..|pairs| - 1], pairs[|pairs| - 1];
      if Repeated(front).Some? then Repeated(front)
      else if exists i :: 0 <= i < |front| && ParameterName(last.0).Some? && Names(front[i], ParameterName(last.0).value)
      then ParameterName(last.0)
      else None
  }

  method DuplicateEndSessionRequestParameter(pairs: seq<Pair>) returns (r: Option<Parameter>)
    ensures r == Repeated(pairs)
  {
    var seen: seq<Parameter> := [];
    for i := 0 to |pairs|
      invariant Repeated(pairs[..i]).None?
      invariant forall p :: p in seen <==> exists j :: 0 <= j < i && Names(pairs[j], p)
    {
      assert pairs[..i + 1][..i] == pairs[..i];
      var parameter := ParameterName(pairs[i].0);
      if parameter.None? {
        continue;
      }
      if parameter.value in seen {
        RepeatedPrefix(pairs, i + 1);
        return parameter;
      }
      seen := seen + [parameter.value];
    }
    assert pairs[..|pairs|] == pairs;
    return None;
  }

  lemma {:induction false} RepeatedPrefix(pairs: seq<Pair>, n: nat)
    requires n <= |pairs| && Repeated(pairs[..n]).Some?
    ensures Repeated(pairs) == Repeated(pairs[..n])
    decreases |pairs| - n
  {
    if n < |pairs| {
      assert pairs[..n + 1][..n] == pairs[..n];
      RepeatedPrefix(pairs, n + 1);
    } else {
      assert pairs[..n] == pairs;
    }
  }

  /** The last value given for a parameter. */
  function LastValue(pairs: seq<Pair>, parameter: Parameter): Option<string> {
    if pairs == [] then None
    else if Names(pairs[|pairs| - 1], parameter) then Some(pairs[|pairs| - 1].1)
    else LastValue(pairs[..|pairs| - 1], parameter)
  }

  function Request(pairs: seq<Pair>): EndSessionRequest {
    EndSessionRequest(
      LastValue(pairs, IdTokenHint), LastValue(pairs, LogoutHint), LastValue(pairs, ClientId),
      LastValue(pairs, PostLogoutRedirectUri), LastValue(pairs, State), LastValue(pairs, UiLocales))
  }

  function FromPairs(pairs: seq<Pair>): Result<EndSessionRequest, ApiError> {
    if Repeated(pairs).Some? then Err(BadRequest("duplicate logout request parameter")) else Ok(Request(pairs))
  }

  method EndSessionRequestFromPairs(pairs: seq<Pair>) returns (r: Result<EndSessionRequest, ApiError>)
    ensures r == FromPairs(pairs)
  {
    var duplicate := DuplicateEndSessionRequestParameter(pairs);
    if duplicate.Some? {
      return Err(BadRequest("duplicate logout request parameter"));
    }
    var request := EndSessionRequest(None, None, None, None, None, None);
    for i := 0 to |pairs|
      invariant request == Request(pairs[..i])
    {
      assert pairs[..i + 1][..i] == pairs[..i];
      var value := Some(pairs[i].1);
      match ParameterName(pairs[i].0) {
        case Some(IdTokenHint) => request := request.(idTokenHint := value);
        case Some(LogoutHint) => request := request.(logoutHint := value);
        case Some(ClientId) => request := request.(clientId := value);
        case Some(PostLogoutRedirectUri) => request := request.(postLogoutRedirectUri := value);
        case Some(State) => request := request.(state := value);
        case Some(UiLocales) => request := request.(uiLocales := value);
        case None =>
      }
    }
    assert pairs[..|pairs|] == pairs;
    return Ok(request);
  }

  // ------------------------------------------------------ what it accepts

  /** Each known parameter occurs at most once. */
  ghost predicate AtMostOnce(pairs: seq<Pair>) {
    forall i, j, parameter :: 0 <= i < j < |pairs| ==> !(Names(pairs[i], parameter) && Names(pairs[j], parameter))
  }

  lemma {:induction false} RepeatedIff(pairs: seq<Pair>)
    ensures Repeated(pairs).None? <==> AtMostOnce(pairs)
  {
    if pairs != [] {
      RepeatedIff(pairs[..|pairs| - 1]);
    }
  }

  lemma NamesByName(pair: Pair, parameter: Parameter)
    ensures Names(pair, parameter) <==> pair.0 == Name(parameter)
  {
  }

  lemma {:induction false} LastValueIff(pairs: seq<Pair>, parameter: Parameter, value: string)
    requires AtMostOnce(pairs)
    ensures LastValue(pairs, parameter) == Some(value) <==> (Name(parameter), value) in pairs
  {
    if pairs != [] {
      var n := |pairs| - 1;
      LastValueIff(pairs[..n], parameter, value);
      assert pairs == pairs[..n] + [pairs[n]];
      NamesByName(pairs[n], parameter);
      NamesByName((Name(parameter), value), parameter);
      assert forall i :: 0 <= i < n ==> !(Names(pairs[i], parameter) && Names(pairs[n], parameter));
    }
  }

  /** The request is accepted iff no known parameter occurs twice, and then a
      field has a value iff the pair that says so was given. */
  lemma AcceptsIffAtMostOnce(pairs: seq<Pair>)
    ensures FromPairs(pairs).Ok? <==> AtMostOnce(pairs)
    ensures FromPairs(pairs).Err? ==> FromPairs(pairs).error == BadRequest("duplicate logout request parameter")
    ensures FromPairs(pairs).Ok? ==> forall parameter, value ::
      FromPairs(pairs).value.Field(parameter) == Some(value) <==> (Name(parameter), value) in pairs
  {
    RepeatedIff(pairs);
    if AtMostOnce(pairs) {
      forall parameter, value
        ensures FromPairs(pairs).value.Field(parameter) == Some(value) <==> (Name(parameter), value) in pairs
      {
        LastValueIff(pairs, parameter, value);
      }
    }
  }

  /** The same with the names that section 2 of RP-Initiated Logout 1.0 gives. */
  lemma FieldsByTheirNames(pairs: seq<Pair>, value: string)
    requires FromPairs(pairs).Ok?
    ensures var request := FromPairs(pairs).value;
      && (request.idTokenHint == Some(value) <==> ("id_token_hint", value) in pairs)
      && (request.logoutHint == Some(value) <==> ("logout_hint", value) in pairs)
      && (request.clientId == Some(value) <==> ("client_id", value) in pairs)
      && (request.postLogoutRedirectUri == Some(value) <==> ("post_logout_redirect_uri", value) in pairs)
      && (request.state == Some(value) <==> ("state", value) in pairs)
      && (request.uiLocales == Some(value) <==> ("ui_locales", value) in pairs)
  {
    AcceptsIffAtMostOnce(pairs);
    var request := FromPairs(pairs).value;
    assert request.Field(IdTokenHint) == Some(value) <==> (Name(IdTokenHint), value) in pairs;
    assert request.Field(LogoutHint) == Some(value) <==> (Name(LogoutHint), value) in pairs;
    assert request.Field(ClientId) == Some(value) <==> (Name(ClientId), value) in pairs;
    assert request.Field(PostLogoutRedirectUri) == Some(value) <==> (Name(PostLogoutRedirectUri), value) in pairs;
    assert request.Field(State) == Some(value) <==> (Name(State), value) in pairs;
    assert request.Field(UiLocales) == Some(value) <==> (Name(UiLocales), value) in pairs;
  }

  // ------------------------------------------------- what it depends on

  lemma {:induction false} Twice(pairs: seq<Pair>, pair: Pair)
    ensures multiset(pairs)[pair] >= 2 <==> exists i, j :: 0 <= i < j < |pairs| && pairs[i] == pairs[j] == pair
  {
    if pairs != [] {
      var n := |pairs| - 1;
      Twice(pairs[..n], pair);
      assert pairs == pairs[..n] + [pairs[n]];
      if multiset(pairs)[pair] >= 2 && multiset(pairs[..n])[pair] < 2 {
        assert pair in pairs[..n];
        var i :| 0 <= i < n && pairs[i] == pair;
        assert pairs[i] == pairs[n] == pair;
      }
      if i, j :| 0 <= i < j < |pairs| && pairs[i] == pairs[j] == pair {
        assert pairs[..n][i] == pair;
        assert j < n ==> pairs[..n][j] == pair;
        assert pair in multiset(pairs[..n]);
      }
    }
  }

  /** The pairs with known names are the same, as a bag. */
  ghost predicate SameKnown(a: seq<Pair>, b: seq<Pair>) {
    forall pair: Pair :: ParameterName(pair.0).Some? ==> multiset(a)[pair] == multiset(b)[pair]
  }

  lemma SameKnownAtMostOnce(a: seq<Pair>, b: seq<Pair>)
    requires SameKnown(a, b) && AtMostOnce(a)
    ensures AtMostOnce(b)
  {
    forall i, j, parameter | 0 <= i < j < |b| && Names(b[i], parameter) && Names(b[j], parameter)
      ensures false
    {
      assert b[i] in multiset(b) && b[j] in multiset(b);
      assert b[i] in multiset(a) && b[j] in multiset(a);
      if b[i] == b[j] {
        Twice(b, b[i]);
        Twice(a, b[i]);
      }
    }
  }

  /** The outcome depends only on the bag of pairs with known names: not on their
      order, and not on unknown parameters. */
  lemma OnlyKnownPairsMatter(a: seq<Pair>, b: seq<Pair>)
    requires SameKnown(a, b)
    ensures FromPairs(a) == FromPairs(b)
  {
    AcceptsIffAtMostOnce(a);
    AcceptsIffAtMostOnce(b);
    if FromPairs(a).Ok? {
      SameKnownAtMostOnce(a, b);
      SameFields(a, b);
    }
    if FromPairs(b).Ok? {
      SameKnownAtMostOnce(b, a);
    }
  }

  lemma SameFields(a: seq<Pair>, b: seq<Pair>)
    requires SameKnown(a, b) && FromPairs(a).Ok? && FromPairs(b).Ok?
    ensures FromPairs(a) == FromPairs(b)
  {
    AcceptsIffAtMostOnce(a);
    AcceptsIffAtMostOnce(b);
    var x, y := FromPairs(a).value, FromPairs(b).value;
    forall parameter ensures x.Field(parameter) == y.Field(parameter) {
      forall value ensures x.Field(parameter) == Some(value) <==> y.Field(parameter) == Some(value) {
        var pair := (Name(parameter), value);
        NamesByName(pair, parameter);
        assert pair in a <==> pair in multiset(a);
        assert pair in b <==> pair in multiset(b);
      }
      SameOption(x.Field(parameter), y.Field(parameter));
    }
    SameRequest(x, y);
  }

  lemma SameOption(x: Option<string>, y: Option<string>)
    requires forall value :: x == Some(value) <==> y == Some(value)
    ensures x == y
  {
    assert x.Some? ==> x == Some(x.value);
    assert y.Some? ==> y == Some(y.value);
  }

  lemma SameRequest(x: EndSessionRequest, y: EndSessionRequest)
    requires forall parameter :: x.Field(parameter) == y.Field(parameter)
    ensures x == y
  {
    assert x.Field(IdTokenHint) == y.Field(IdTokenHint) && x.Field(LogoutHint) == y.Field(LogoutHint);
    assert x.Field(ClientId) == y.Field(ClientId) && x.Field(PostLogoutRedirectUri) == y.Field(PostLogoutRedirectUri);
    assert x.Field(State) == y.Field(State) && x.Field(UiLocales) == y.Field(UiLocales);
  }

  lemma OrderDoesNotMatter(a: seq<Pair>, b: seq<Pair>)
    requires multiset(a) == multiset(b)
    ensures FromPairs(a) == FromPairs(b)
  {
    OnlyKnownPairsMatter(a, b);
  }

  lemma UnknownParametersAreIgnored(front: seq<Pair>, unknown: seq<Pair>, back: seq<Pair>)
    requires forall pair :: pair in unknown ==> ParameterName(pair.0).None?
    ensures FromPairs(front + unknown + back) == FromPairs(front + back)
  {
    forall pair: Pair | ParameterName(pair.0).Some?
      ensures multiset(front + unknown + back)[pair] == multiset(front + back)[pair]
    {
      assert pair !in unknown;
      assert multiset(front + unknown + back) == multiset(front) + multiset(unknown) + multiset(back);
      assert multiset(front + back) == multiset(front) + multiset(back);
    }
    OnlyKnownPairsMatter(front + unknown + back, front + back);
  }

  // ---------------------------------------------------------- round trip

  /** The pairs of a request for the given parameters. */
  function PairsOf(request: EndSessionRequest, parameters: seq<Parameter>): seq<Pair> {
    if parameters == [] then []
    else
      var value := request.Field(parameters[0]);
      (if value.Some? then [(Name(parameters[0]), value.value)] else []) + PairsOf(request, parameters[1..])
  }

  lemma {:induction false} PairsOfMembers(request: EndSessionRequest, parameters: seq<Parameter>, pair: Pair)
    ensures pair in PairsOf(request, parameters)
       <==> exists parameter :: parameter in parameters && pair.0 == Name(parameter) && request.Field(parameter) == Some(pair.1)
  {
    if parameters != [] {
      PairsOfMembers(request, parameters[1..], pair);
      assert parameters == [parameters[0]] + parameters[1..];
    }
  }

  lemma {:induction false} PairsOfOnce(request: EndSessionRequest, parameters: seq<Parameter>)
    requires forall i, j :: 0 <= i < j < |parameters| ==> parameters[i] != parameters[j]
    ensures AtMostOnce(PairsOf(request, parameters))
  {
    if parameters != [] {
      var first, rest := parameters[0], parameters[1..];
      var others := PairsOf(request, rest);
      PairsOfOnce(request, rest);
      forall j, parameter | 0 <= j < |others| && Names(others[j], parameter)
        ensures parameter != first
      {
        PairsOfMembers(request, rest, others[j]);
        var source :| source in rest && others[j].0 == Name(source);
        NamesByName(others[j], source);
        NamesByName(others[j], parameter);
      }
      if request.Field(first).Some? {
        NamesByName((Name(first), request.Field(first).value), first);
      }
    }
  }

  const ALL_PARAMETERS := [IdTokenHint, LogoutHint, ClientId, PostLogoutRedirectUri, State, UiLocales]

  /** A logout request sent as a form is read back as it was, whatever its values
      contain. */
  lemma RequestRoundTrip(request: EndSessionRequest)
    ensures var pairs := PairsOf(request, ALL_PARAMETERS);
      ParseUrlEncodedPairs(Form(pairs)) == Ok(pairs) && FromPairs(pairs) == Ok(request)
  {
    var pairs := PairsOf(request, ALL_PARAMETERS);
    ParseUndoesForm(pairs);
    EveryParameterIsListed(State);
    PairsOfOnce(request, ALL_PARAMETERS);
    AcceptsIffAtMostOnce(pairs);
    var read := FromPairs(pairs).value;
    forall parameter ensures read.Field(parameter) == request.Field(parameter) {
      forall value ensures read.Field(parameter) == Some(value) <==> request.Field(parameter) == Some(value) {
        var pair := (Name(parameter), value);
        EveryParameterIsListed(parameter);
        PairsOfMembers(request, ALL_PARAMETERS, pair);
        NamesByName(pair, parameter);
        forall other | pair.0 == Name(other) ensures other == parameter {
          NamesByName(pair, other);
        }
      }
      SameOption(read.Field(parameter), request.Field(parameter));
    }
    SameRequest(read, request);
  }

  lemma EveryParameterIsListed(parameter: Parameter)
    ensures parameter in ALL_PARAMETERS
    ensures |ALL_PARAMETERS| == 6 && forall i, j :: 0 <= i < j < 6 ==> ALL_PARAMETERS[i] != ALL_PARAMETERS[j]
  {
    var i := match parameter
      case IdTokenHint => 0 case LogoutHint => 1 case ClientId => 2
      case PostLogoutRedirectUri => 3 case State => 4 case UiLocales => 5;
    assert ALL_PARAMETERS[i] == parameter;
  }
}
