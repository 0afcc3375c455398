/** Redirect URIs with response parameters appended (section 4.1.2 of RFC 6749,
    section 2 of RFC 9207, section 2 of OpenID Connect RP-Initiated Logout 1.0),
    and what the client reads from their queries. */
module Redirects {
  import opened Strings
  import opened Wrappers
  import opened Utf8
  import opened UrlEncoded

  // ------------------------------------------------------------- builders

  function Separator(uri: string): string {
    if '?' in uri then "&" else "?"
  }

  predicate IsOauthErrorTextCharacter(c: char) {
    var n := c as int;
    0x20 <= n <= 0x21 || 0x23 <= n <= 0x5B || 0x5D <= n <= 0x7E
  }

  /** `oauth_error_description`. */
  function Sanitized(description: string): (text: string)
    ensures |text| == |description|
    ensures forall i :: 0 <= i < |text| ==> IsOauthErrorTextCharacter(text[i])
    ensures forall i :: 0 <= i < |text| ==>
      text[i] == if IsOauthErrorTextCharacter(description[i]) then description[i] else ' '
  {
    seq(|description|, i requires 0 <= i < |description| =>
      if IsOauthErrorTextCharacter(description[i]) then description[i] else ' ')
  }

  function Optional(name: string, value: Option<string>): seq<Pair> {
    if value.Some? then [(name, value.value)] else []
  }

  /** The pairs of a success response after its code. */
  function ResponsePairs(state: Option<string>, issuer: string): seq<Pair> {
    [("iss", issuer)] + Optional("state", state)
  }

  function ErrorPairs(error: string, description: Option<string>, state: Option<string>, issuer: string): seq<Pair> {
    [("error", error), ("iss", issuer)]
    + Optional("error_description", if description.Some? then Some(Sanitized(description.value)) else None)
    + Optional("state", state)
  }

  /** The parameters of a success response; the code is written as it is. */
  function CodeText(code: string, rest: seq<Pair>): string {
    "code=" + code + "&" + Form(rest)
  }

  lemma FormCons(first: Pair, rest: seq<Pair>)
    requires rest != []
    ensures Form([first] + rest) == FormPair(first) + "&" + Form(rest)
  {
    assert ([first] + rest)[1..] == rest;
  }

  lemma {:induction false} FormAppend(pairs: seq<Pair>, last: Pair)
    requires pairs != []
    ensures Form(pairs + [last]) == Form(pairs) + "&" + FormPair(last)
  {
    var first, rest := pairs[0], pairs[1..];
    assert pairs == [first] + rest;
    assert pairs + [last] == [first] + (rest + [last]);
    FormCons(first, rest + [last]);
    if rest == [] {
      assert rest + [last] == [last];
    } else {
      FormAppend(rest, last);
      FormCons(first, rest);
      Associate(FormPair(first) + "&", Form(rest), "&", FormPair(last));
    }
  }

  predicate IsPlain(name: string) {
    forall c :: c in name ==> IsUnreserved(c)
  }

  /** A name of the protocol, as it is written. */
  lemma {:induction false} PlainName(name: string)
    requires IsPlain(name)
    ensures PercentEncodeMinimal(name) == name
  {
    if name != [] {
      assert name[0] in name && forall c :: c in name[1..] ==> c in name;
      PlainName(name[1..]);
      assert name == [name[0]] + name[1..];
      EncodeConcat([name[0]], name[1..]);
      EncodeAscii([name[0]]);
      FlatMapConcat(Encode([name[0]]), Encode(name[1..]), EscapeByte);
      assert Encode([name[0]]) == [name[0] as int];
    }
  }

  /** What the builders push before a value. */
  function Key(name: string): string {
    "&" + name + "="
  }

  lemma KeyAndValue(name: string, value: string)
    requires IsPlain(name)
    ensures Key(name) + PercentEncodeMinimal(value) == "&" + FormPair((name, value))
  {
    PlainName(name);
    assert "&" + name + "=" + PercentEncodeMinimal(value) == "&" + (name + "=" + PercentEncodeMinimal(value));
  }

  /** Pushing a key and the encoded value appends the pair. */
  lemma PushPair(front: string, pairs: seq<Pair>, name: string, value: string)
    requires pairs != [] && IsPlain(name)
    ensures front + Form(pairs) + Key(name) + PercentEncodeMinimal(value) == front + Form(pairs + [(name, value)])
  {
    KeyAndValue(name, value);
    FormAppend(pairs, (name, value));
    Associate(front, Form(pairs), Key(name), PercentEncodeMinimal(value));
    Associate(front, Form(pairs), "&", FormPair((name, value)));
  }

  lemma NamesArePlain()
    ensures IsPlain("error") && IsPlain("iss") && IsPlain("error_description") && IsPlain("state")
  {
  }

  lemma FirstPair(front: string, name: string, value: string)
    requires IsPlain(name)
    ensures front + (name + "=") + PercentEncodeMinimal(value) == front + Form([(name, value)])
  {
    PlainName(name);
  }

  method AppendAuthorizationResponseParams(redirectUri: string, code: string, state: Option<string>, issuer: string)
    returns (target: string)
    ensures target == redirectUri + Separator(redirectUri) + CodeText(code, ResponsePairs(state, issuer))
    ensures CanAppend(redirectUri) && '&' !in code && '%' !in code && '+' !in code && '#' !in code ==>
      ReadPairs(target)
      == Ok(ReadPairs(redirectUri).value
            + ([("code", code), ("iss", issuer)] + (if state.Some? then [("state", state.value)] else [])))
  {
    hide ReadPairs, CanAppend, Form, Query, PercentEncodeMinimal;
    if CanAppend(redirectUri) && '&' !in code && '%' !in code && '+' !in code && '#' !in code {
      ResponseReads(redirectUri, code, state, issuer);
    }
    AssociateFive(redirectUri + Separator(redirectUri), "code=", code, "&", Form(ResponsePairs(state, issuer)));
    target := redirectUri + Separator(redirectUri) + "code=" + code + Key("iss") + PercentEncodeMinimal(issuer);
    ghost var front := redirectUri + Separator(redirectUri) + "code=" + code;
    assert front + Key("iss") == front + "&" + ("iss" + "=");
    FirstPair(front + "&", "iss", issuer);
    if state.Some? {
      target := target + Key("state");
      target := target + PercentEncodeMinimal(state.value);
      PushPair(front + "&", [("iss", issuer)], "state", state.value);
    } else {
      assert ResponsePairs(state, issuer) == [("iss", issuer)];
    }
  }

  method AppendAuthorizationErrorResponseParams(
    redirectUri: string, error: string, description: Option<string>, state: Option<string>, issuer: string)
    returns (target: string)
    ensures target == redirectUri + Separator(redirectUri) + Form(ErrorPairs(error, description, state, issuer))
    ensures CanAppend(redirectUri) ==>
      ReadPairs(target)
      == Ok(ReadPairs(redirectUri).value
            + ([("error", error), ("iss", issuer)]
               + (if description.Some? then [("error_description", Sanitized(description.value))] else [])
               + (if state.Some? then [("state", state.value)] else [])))
  {
    hide ReadPairs, CanAppend, Form, Query, PercentEncodeMinimal;
    if CanAppend(redirectUri) {
      ErrorResponseReads(redirectUri, error, description, state, issuer);
    }
    ghost var front := redirectUri + Separator(redirectUri);
    ghost var pairs := [("error", error)];
    NamesArePlain();
    target := redirectUri + Separator(redirectUri) + ("error" + "=") + PercentEncodeMinimal(error)
      + Key("iss") + PercentEncodeMinimal(issuer);
    FirstPair(front, "error", error);
    PushPair(front, pairs, "iss", issuer);
    pairs := pairs + [("iss", issuer)];
    if description.Some? {
      var text := Sanitized(description.value);
      target := target + Key("error_description");
      target := target + PercentEncodeMinimal(text);
      PushPair(front, pairs, "error_description", text);
      pairs := pairs + [("error_description", text)];
    }
    if state.Some? {
      target := target + Key("state");
      target := target + PercentEncodeMinimal(state.value);
      PushPair(front, pairs, "state", state.value);
      pairs := pairs + [("state", state.value)];
    }
    assert pairs == ErrorPairs(error, description, state, issuer);
  }

  function AppendPostLogoutRedirectParams(uri: string, state: Option<string>): string {
    if state.None? then uri
    else uri + Separator(uri) + ("state" + "=") + PercentEncodeMinimal(state.value)
  }

  // --------------------------------------------------------------- reading

  /** The position of the first `stop`, or the length. */
  function Find(s: string, stop: char): (i: nat)
    ensures i <= |s|
  {
    if s == [] || s[0] == stop then 0 else 1 + Find(s[1..], stop)
  }

  lemma {:induction false} FindIsFirst(s: string, stop: char)
    ensures forall j :: 0 <= j < Find(s, stop) ==> s[j] != stop
    ensures Find(s, stop) < |s| ==> s[Find(s, stop)] == stop
  {
    if s != [] && s[0] != stop {
      FindIsFirst(s[1..], stop);
      assert forall j :: 1 <= j <= Find(s[1..], stop) ==> s[j] == s[1..][j - 1];
    }
  }

  lemma FirstIsFound(s: string, stop: char, i: nat)
    requires i <= |s| && (forall j :: 0 <= j < i ==> s[j] != stop) && (i < |s| ==> s[i] == stop)
    ensures Find(s, stop) == i
  {
    FindIsFirst(s, stop);
  }

  function WithoutFragment(uri: string): string {
    uri[..Find(uri, '#')]
  }

  /** The query of a URI: between its first `?` and its fragment. */
  function Query(uri: string): Option<string> {
    var whole := WithoutFragment(uri);
    var mark := Find(whole, '?');
    if mark == |whole| then None else Some(whole[mark + 1..])
  }

  lemma NoFragment(uri: string)
    requires '#' !in uri
    ensures WithoutFragment(uri) == uri
  {
    FirstIsFound(uri, '#', |uri|);
  }

  lemma FoundBefore(s: string, more: string, stop: char)
    requires stop in s
    ensures Find(s + more, stop) == Find(s, stop) < |s|
  {
    FindIsFirst(s, stop);
    var i :| 0 <= i < |s| && s[i] == stop;
    FirstIsFound(s + more, stop, Find(s, stop));
  }

  /** Appending to a fragment-free URI extends its query. */
  lemma QueryAfterAppend(uri: string, text: string)
    requires '#' !in uri && '#' !in text
    ensures Query(uri + Separator(uri) + text)
         == Some(if Query(uri).None? then text else Query(uri).value + "&" + text)
  {
    var built := uri + Separator(uri) + text;
    NoFragment(uri);
    NoFragment(built);
    if '?' in uri {
      var mark := Find(uri, '?');
      FindIsFirst(uri, '?');
      FoundBefore(uri, "&" + text, '?');
      assert built == uri + ("&" + text);
      assert built[mark + 1..] == uri[mark + 1..] + ("&" + text);
      assert uri[mark + 1..] + ("&" + text) == uri[mark + 1..] + "&" + text;
    } else {
      FirstIsFound(uri, '?', |uri|);
      FirstIsFound(built, '?', |uri|);
      assert built[|uri| + 1..] == text;
    }
  }

  function ReadPairs(uri: string): Result<seq<Pair>, ParseError> {
    match Query(uri)
    case None => Ok([])
    case Some(query) => ParseUrlEncodedPairs(query)
  }

  /** What a client reads after `text` was appended, for every query the URI may
      have had; an empty query turns into an empty pair. */
  lemma ReadAfterAppend(uri: string, text: string)
    requires '#' !in uri && '#' !in text && text != []
    ensures ReadPairs(uri + Separator(uri) + text)
         == Concat(if Query(uri) == Some("") then Ok([("", "")]) else ReadPairs(uri), ParseUrlEncodedPairs(text))
  {
    QueryAfterAppend(uri, text);
    match Query(uri) {
      case None =>
        assert ParseUrlEncodedPairs(text).Ok? ==> [] + ParseUrlEncodedPairs(text).value == ParseUrlEncodedPairs(text).value;
      case Some(query) =>
        if query == "" {
          assert "" + "&" + text == [] + ['&'] + text;
          SplitAt("", text, '&');
          CollectCons("", Split(text, '&'));
          DecodesToItself("");
        } else {
          ParseJoined(query, text);
        }
    }
  }

  lemma {:induction false} FormIsFragmentFree(pairs: seq<Pair>)
    ensures '#' !in Form(pairs)
  {
    if pairs != [] {
      FormPairHasNo(pairs[0], '#');
      FormIsFragmentFree(pairs[1..]);
    }
  }

  /** Behind a fragment nothing is read. */
  lemma NothingBehindFragment(uri: string, text: string)
    requires '#' in uri
    ensures ReadPairs(uri + text) == ReadPairs(uri)
  {
    FoundBefore(uri, text, '#');
    assert WithoutFragment(uri + text) == WithoutFragment(uri);
  }

  lemma LostBehindFragment(uri: string, text: string, pairs: seq<Pair>)
    requires '#' in uri && ReadPairs(uri).Ok? && pairs != []
    ensures ReadPairs(uri + Separator(uri) + text) != Ok(ReadPairs(uri).value + pairs)
  {
    assert uri + Separator(uri) + text == uri + (Separator(uri) + text);
    NothingBehindFragment(uri, Separator(uri) + text);
    assert |ReadPairs(uri).value + pairs| > |ReadPairs(uri).value|;
  }

  lemma ConcatCancels(a: Result<seq<Pair>, ParseError>, pairs: seq<Pair>, rest: seq<Pair>)
    ensures Concat(a, Ok(rest)) == Ok(pairs + rest) <==> a == Ok(pairs)
  {
    if a.Ok? && a.value + rest == pairs + rest {
      assert |a.value| == |pairs|;
      assert a.value == (a.value + rest)[..|pairs|] == (pairs + rest)[..|pairs|] == pairs;
    }
  }

  lemma ConcatCancelsFront(front: seq<Pair>, a: Result<seq<Pair>, ParseError>, pairs: seq<Pair>)
    ensures Concat(Ok(front), a) == Ok(front + pairs) <==> a == Ok(pairs)
  {
    if a.Ok? && front + a.value == front + pairs {
      assert a.value == (front + a.value)[|front|..] == (front + pairs)[|front|..] == pairs;
    }
  }

  /** What is in front of the appended pairs is the client's own iff its query was
      not empty: an empty one turns into an empty pair. */
  lemma EmptyQueryShows(uri: string, a: Result<seq<Pair>, ParseError>, pairs: seq<Pair>)
    requires ReadPairs(uri).Ok? && pairs != [] && pairs[0] != ("", "")
    ensures Concat(if Query(uri) == Some("") then Ok([("", "")]) else ReadPairs(uri), a) == Ok(ReadPairs(uri).value + pairs)
       <==> Query(uri) != Some("") && a == Ok(pairs)
  {
    if Query(uri) == Some("") {
      assert ReadPairs(uri) == Ok([]);
      assert a.Ok? ==> ([("", "")] + a.value)[0] != ([] + pairs)[0];
    } else {
      ConcatCancelsFront(ReadPairs(uri).value, a, pairs);
    }
  }

  /** Of a URI with a parseable query, the client reads its own pairs followed by
      exactly the appended ones iff the URI has no fragment and its query was
      absent or not empty. */
  lemma RedirectKeepsPairs(uri: string, pairs: seq<Pair>)
    requires ReadPairs(uri).Ok? && pairs != [] && pairs[0] != ("", "")
    ensures ReadPairs(uri + Separator(uri) + Form(pairs)) == Ok(ReadPairs(uri).value + pairs)
       <==> '#' !in uri && Query(uri) != Some("")
  {
    if '#' in uri {
      LostBehindFragment(uri, Form(pairs), pairs);
    } else {
      FormSplits(pairs);
      FormIsFragmentFree(pairs);
      ParseUndoesForm(pairs);
      ReadAfterAppend(uri, Form(pairs));
      EmptyQueryShows(uri, Ok(pairs), pairs);
    }
  }

  /** An error response: every value arrives, the description sanitised. */
  lemma ErrorRedirectKeepsPairs(
    uri: string, error: string, description: Option<string>, state: Option<string>, issuer: string)
    requires ReadPairs(uri).Ok?
    ensures var pairs := ErrorPairs(error, description, state, issuer);
      ReadPairs(uri + Separator(uri) + Form(pairs)) == Ok(ReadPairs(uri).value + pairs)
      <==> '#' !in uri && Query(uri) != Some("")
  {
    var pairs := ErrorPairs(error, description, state, issuer);
    assert pairs[0] == ("error", error);
    RedirectKeepsPairs(uri, pairs);
  }

  /** A logout redirect: the state arrives, and without one the URI is unchanged. */
  lemma LogoutRedirectKeepsPairs(uri: string, state: Option<string>)
    requires ReadPairs(uri).Ok?
    ensures ReadPairs(AppendPostLogoutRedirectParams(uri, state)) == Ok(ReadPairs(uri).value + Optional("state", state))
       <==> state.None? || ('#' !in uri && Query(uri) != Some(""))
  {
    if state.Some? {
      FirstPair(uri + Separator(uri), "state", state.value);
      RedirectKeepsPairs(uri, [("state", state.value)]);
    } else {
      assert ReadPairs(uri).value + [] == ReadPairs(uri).value;
    }
  }

  // -------------------------------------------------------------- the code

  /** Characters that a form reader does not take as the character itself. */
  predicate IsFormSafe(code: string) {
    '&' !in code && '%' !in code && '+' !in code
  }

  lemma SplitCodePair(code: string)
    requires '&' in code
    ensures |Split("code=" + code, '&')| >= 2
  {
    var text := "code=" + code;
    SplitSize(text, '&');
    assert multiset(text) == multiset("code=") + multiset(code);
  }

  lemma ParseCodePair(code: string)
    requires '&' !in code
    ensures ParseUrlEncodedPairs("code=" + code)
         == if Decoded(code).Ok? then Ok([("code", Decoded(code).value)]) else Err(UrlEncodedParseError)
  {
    assert "code=" + code == "code" + "=" + code;
    ParseOnePair("code", code);
    DecodesToItself("code");
  }

  /** As form text: the code, which is written as it is, and the pairs after it are
      read back iff the code has no character with a meaning in forms. */
  lemma CodeParsesIffSafe(code: string, rest: seq<Pair>)
    requires rest != []
    ensures ParseUrlEncodedPairs(CodeText(code, rest)) == Ok([("code", code)] + rest) <==> IsFormSafe(code)
  {
    FormSplits(rest);
    ParseUndoesForm(rest);
    ParseJoined("code=" + code, Form(rest));
    ConcatCancels(ParseUrlEncodedPairs("code=" + code), [("code", code)], rest);
    if '&' in code {
      SplitCodePair(code);
    } else {
      ParseCodePair(code);
      DecodesToItself(code);
    }
  }

  /** What is left of a code in a query: up to its first `#`. */
  function Cut(code: string): string {
    code[..Find(code, '#')]
  }

  lemma CutIsShorter(code: string)
    requires '#' in code
    ensures Cut(code) < code && '#' !in Cut(code)
    ensures |Encode(Cut(code))| < |Encode(code)|
  {
    FindIsFirst(code, '#');
    FoundBefore(code, "", '#');
    var lost := code[|Cut(code)|..];
    assert code == Cut(code) + lost;
    EncodeConcat(Cut(code), lost);
    assert Encode(lost) == EncodeChar(lost[0]) + Encode(lost[1..]);
  }

  lemma FirstPairOf(first: string, rest: string)
    requires '&' !in first
    ensures var r := ParseUrlEncodedPairs("code=" + first + "&" + rest);
      r.Ok? ==> Decoded(first).Ok? && r.value != [] && r.value[0].1 == Decoded(first).value
  {
    var text := "code=" + first;
    ParseCodePair(first);
    SplitAt(text, rest, '&');
    CollectConcat(Split(text, '&'), Split(rest, '&'));
  }

  /** The first value in a form text that begins with a code comes from no more
      bytes than the code has. */
  lemma FirstValueIsNoLonger(code: string)
    ensures var r := ParseUrlEncodedPairs("code=" + code);
      r.Ok? && r.value != [] ==> |Encode(r.value[0].1)| <= |Encode(code)|
  {
    if '&' in code {
      FindIsFirst(code, '&');
      FoundBefore(code, "", '&');
      var i := Find(code, '&');
      var first, rest := code[..i], code[i + 1..];
      Associate("code=", first, "&", rest);
      assert code == first + "&" + rest;
      EncodeConcat(first, code[i..]);
      assert code == first + code[i..];
      FirstPairOf(first, rest);
      DecodingShortens(first);
    } else {
      ParseCodePair(code);
      DecodingShortens(code);
    }
  }

  /** With a `#` in the code the query ends inside it: the rest of the code and
      all that follows are lost, whatever the code. */
  lemma HashCutsCode(uri: string, code: string, rest: seq<Pair>)
    requires '#' !in uri && '#' in code
    ensures ReadPairs(uri + Separator(uri) + CodeText(code, rest))
         == Concat(if Query(uri) == Some("") then Ok([("", "")]) else ReadPairs(uri), ParseUrlEncodedPairs("code=" + Cut(code)))
  {
    var front := uri + Separator(uri);
    var target, kept := front + CodeText(code, rest), front + ("code=" + Cut(code));
    CutIsShorter(code);
    FindIsFirst(code, '#');
    FoundBefore(code, "", '#');
    Associate("code=", code, "&", Form(rest));
    FoundIn(front, "code=", code, "&" + Form(rest));
    NoFragment(kept);
    assert Query(target) == Query(kept);
    ReadAfterAppend(uri, "code=" + Cut(code));
  }

  lemma FoundIn(front: string, key: string, code: string, tail: string)
    requires '#' !in front && '#' !in key && '#' in code
    ensures WithoutFragment(front + (key + (code + tail))) == front + (key + Cut(code))
  {
    var target, kept := front + (key + (code + tail)), front + (key + Cut(code));
    FindIsFirst(code, '#');
    FoundBefore(code, "", '#');
    assert target == front + key + code + tail;
    FirstIsFound(target, '#', |kept|);
  }

  lemma HashLosesCode(uri: string, code: string, rest: seq<Pair>)
    requires '#' !in uri && '#' in code && ReadPairs(uri).Ok?
    ensures ReadPairs(uri + Separator(uri) + CodeText(code, rest)) != Ok(ReadPairs(uri).value + ([("code", code)] + rest))
  {
    var pairs, read := [("code", code)] + rest, ParseUrlEncodedPairs("code=" + Cut(code));
    HashCutsCode(uri, code, rest);
    CutIsShorter(code);
    FirstValueIsNoLonger(Cut(code));
    assert pairs[0] == ("code", code);
    assert read != Ok(pairs);
    EmptyQueryShows(uri, read, pairs);
  }

  lemma HashFreeCodeArrives(uri: string, code: string, rest: seq<Pair>)
    requires '#' !in uri && '#' !in code && ReadPairs(uri).Ok? && rest != []
    ensures ReadPairs(uri + Separator(uri) + CodeText(code, rest)) == Ok(ReadPairs(uri).value + ([("code", code)] + rest))
       <==> Query(uri) != Some("") && IsFormSafe(code)
  {
    var text := CodeText(code, rest);
    FormIsFragmentFree(rest);
    CodeParsesIffSafe(code, rest);
    ReadAfterAppend(uri, text);
    EmptyQueryShows(uri, ParseUrlEncodedPairs(text), [("code", code)] + rest);
  }

  /** A success response: the client reads its own pairs, the code, the issuer and
      the state iff the URI has no fragment and no empty query, and the code has
      none of the characters `&`, `%`, `+` and `#`; a code of unreserved
      characters has none. */
  lemma ResponseRedirectKeepsPairs(uri: string, code: string, state: Option<string>, issuer: string)
    requires ReadPairs(uri).Ok?
    ensures ReadPairs(uri + Separator(uri) + CodeText(code, ResponsePairs(state, issuer)))
            == Ok(ReadPairs(uri).value + ([("code", code)] + ResponsePairs(state, issuer)))
       <==> '#' !in uri && Query(uri) != Some("") && IsFormSafe(code) && '#' !in code
  {
    var rest := ResponsePairs(state, issuer);
    var text, pairs := CodeText(code, rest), [("code", code)] + rest;
    assert pairs[0] == ("code", code);
    if '#' in uri {
      LostBehindFragment(uri, text, pairs);
    } else if '#' in code {
      HashLosesCode(uri, code, rest);
    } else {
      HashFreeCodeArrives(uri, code, rest);
    }
  }

  /** Such a code: its end, the issuer and the state do not arrive. */
  lemma HashedCodeIsCut(uri: string, state: Option<string>, issuer: string)
    requires '#' !in uri && ReadPairs(uri).Ok? && Query(uri) != Some("")
    ensures IsFormSafe("a#b")
    ensures ReadPairs(uri + Separator(uri) + CodeText("a#b", ResponsePairs(state, issuer)))
         == Ok(ReadPairs(uri).value + [("code", "a")])
  {
    FirstIsFound("a#b", '#', 1);
    assert Cut("a#b") == "a";
    HashCutsCode(uri, "a#b", ResponsePairs(state, issuer));
    ParseCodePair("a");
    DecodesToItself("a");
  }

  // ------------------------------------------------------ what clients read

  /** The client's own pairs come first, and nothing else is lost or added. */
  predicate CanAppend(uri: string) {
    ReadPairs(uri).Ok? && '#' !in uri && Query(uri) != Some("")
  }

  /** Behind its own pairs the client of an error response reads the error, the
      issuer, the sanitised description iff one was given, and the state iff one
      was given, in this order. */
  lemma ErrorResponseReads(uri: string, error: string, description: Option<string>, state: Option<string>, issuer: string)
    requires CanAppend(uri)
    ensures ReadPairs(uri + Separator(uri) + Form(ErrorPairs(error, description, state, issuer)))
         == Ok(ReadPairs(uri).value
               + ([("error", error), ("iss", issuer)]
                  + (if description.Some? then [("error_description", Sanitized(description.value))] else [])
                  + (if state.Some? then [("state", state.value)] else [])))
  {
    ErrorRedirectKeepsPairs(uri, error, description, state, issuer);
    assert ErrorPairs(error, description, state, issuer)
        == [("error", error), ("iss", issuer)]
           + (if description.Some? then [("error_description", Sanitized(description.value))] else [])
           + (if state.Some? then [("state", state.value)] else []);
  }

  /** The client of a success response reads the code, the issuer, and the state iff
      one was given. */
  lemma ResponseReads(uri: string, code: string, state: Option<string>, issuer: string)
    requires CanAppend(uri) && '&' !in code && '%' !in code && '+' !in code && '#' !in code
    ensures ReadPairs(uri + Separator(uri) + CodeText(code, ResponsePairs(state, issuer)))
         == Ok(ReadPairs(uri).value
               + ([("code", code), ("iss", issuer)] + (if state.Some? then [("state", state.value)] else [])))
  {
    ResponseRedirectKeepsPairs(uri, code, state, issuer);
    assert [("code", code)] + ResponsePairs(state, issuer)
        == [("code", code), ("iss", issuer)] + (if state.Some? then [("state", state.value)] else []);
  }

  /** And of a logout redirect the state iff one was given. */
  lemma LogoutReads(uri: string, state: Option<string>)
    requires CanAppend(uri)
    ensures ReadPairs(AppendPostLogoutRedirectParams(uri, state))
         == Ok(ReadPairs(uri).value + (if state.Some? then [("state", state.value)] else []))
  {
    LogoutRedirectKeepsPairs(uri, state);
  }

  /** What may stand in an error description: the printable ASCII characters but
      quote and backslash; each other character becomes a space. */
  lemma SanitizedByCharacter(description: string)
    ensures |Sanitized(description)| == |description|
    ensures forall i :: 0 <= i < |description| ==>
      Sanitized(description)[i]
      == if ' ' <= description[i] <= '~' && description[i] != '"' && description[i] != '\\' then description[i] else ' '
  {
  }
}
