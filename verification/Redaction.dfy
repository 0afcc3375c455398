/** Redaction of sensitive audit metadata: the values of sensitive keys are
    replaced, at any depth. */
module Redaction {
  import opened Strings
  import opened Words
  import opened Wrappers

  // ------------------------------------------------------------------ keys

  method NormalizeMetadataKey(key: string) returns (r: string)
    ensures r == Normalized(key, '_')
  {
    var normalized: string := [];
    var previousWasSeparator := false;
    for i := 0 to |key|
      invariant normalized == Collapsed(key[..i], '_')
      invariant previousWasSeparator == (normalized != [] && normalized[|normalized| - 1] == '_')
    {
      var character := key[i];
      assert key[..i + 1][..i] == key[..i];
      if IsAlphanumeric(character) {
        normalized := normalized + [Lowercase(character)];
        previousWasSeparator := false;
      } else if !previousWasSeparator {
        normalized := normalized + ['_'];
        previousWasSeparator := true;
      }
    }
    assert key[..|key|] == key;
    TrimmedIsNormalized(key, '_');
    r := Trim(normalized, Is('_'));
  }

  const SENSITIVE_KEYS: set<string> := {
    "password", "secret", "client_secret", "token", "access_token", "refresh_token", "id_token",
    "authorization_code", "code", "code_verifier", "mfa_code", "totp_code", "otp_code",
    "recovery_code", "recovery_codes", "csrf_token", "private_key", "private_key_pem",
    "signing_private_key", "signing_private_key_pem", "key_encryption_key", "kek",
    "preview_url", "action_url", "magic_link", "verification_link", "recovery_link", "invitation_link",
    "client_data_json", "attestation_object", "authenticator_data", "signature" }

  const SENSITIVE_COMPACT_KEYS: set<string> := {
    "idtoken", "authorizationcode", "codeverifier", "mfacode", "totpcode", "otpcode",
    "recoverycode", "recoverycodes", "csrftoken", "privatekey", "privatekeypem",
    "signingprivatekey", "signingprivatekeypem", "keyencryptionkey",
    "previewurl", "actionurl", "magiclink", "verificationlink", "recoverylink", "invitationlink",
    "clientdatajson", "attestationobject", "authenticatordata" }

  predicate IsListed(key: string) {
    key in SENSITIVE_KEYS
  }

  predicate IsListedCompact(key: string) {
    key in SENSITIVE_COMPACT_KEYS
  }

  function Without(s: string, c: char): string {
    if s == [] then [] else (if s[0] == c then [] else [s[0]]) + Without(s[1..], c)
  }

  predicate IsSensitiveMetadataKey(key: string) {
    var normalized := Normalized(key, '_');
    var compact := Without(normalized, '_');
    || IsListed(normalized)
    || IsListedCompact(compact)
    || EndsWith(normalized, "_password")
    || EndsWith(normalized, "_secret")
    || EndsWith(normalized, "_token")
    || EndsWith(normalized, "_private_key")
    || EndsWith(normalized, "_private_key_pem")
    || Contains(compact, "keyencryptionkey")
    || Contains(normalized, "recovery_code")
    || Contains(compact, "recoverycode")
  }

  /** Keys whose words differ in case only, with any gaps between and around them,
      normalise alike and get the same verdict. */
  lemma SpellingDoesNotMatter(a: seq<Part>, tailA: string, b: seq<Part>, tailB: string)
    requires ArePartsOfText(a) && IsGap(tailA) && ArePartsOfText(b) && IsGap(tailB)
    requires LowercaseWords(a) == LowercaseWords(b)
    ensures Normalized(Weave(a) + tailA, '_') == Normalized(Weave(b) + tailB, '_') == Join(LowercaseWords(a), "_")
    ensures IsSensitiveMetadataKey(Weave(a) + tailA) == IsSensitiveMetadataKey(Weave(b) + tailB)
  {
    WordsOfWeave(a, tailA);
    WordsOfWeave(b, tailB);
  }

  /** Keys that differ in the case of any of their letters get the same verdict. */
  lemma CaseGetsTheSameVerdict(a: string, b: string)
    requires SameButCase(a, b)
    ensures Normalized(a, '_') == Normalized(b, '_') && IsSensitiveMetadataKey(a) == IsSensitiveMetadataKey(b)
  {
    CaseDoesNotMatter(a, b);
  }

  /** The compact form of a key is its words, one after the other. */
  lemma {:induction false} CompactIsWords(words: seq<string>)
    requires AreWords(words)
    ensures Without(Join(words, "_"), '_') == Join(words, "")
  {
    if |words| == 1 {
      WithoutNothing(words[0], []);
      assert words[0] + [] == words[0];
    } else if words != [] {
      var rest := Join(words[1..], "_");
      CompactIsWords(words[1..]);
      WithoutNothing(words[0], "_" + rest);
      assert ("_" + rest)[1..] == rest;
      assert words[0] + "_" + rest == words[0] + ("_" + rest);
    }
  }

  lemma {:induction false} WithoutNothing(word: string, rest: string)
    requires forall i :: 0 <= i < |word| ==> IsWordCharacter(word[i])
    ensures Without(word + rest, '_') == word + Without(rest, '_')
  {
    if word == [] {
      assert word + rest == rest;
    } else {
      assert (word + rest)[1..] == word[1..] + rest;
      WithoutNothing(word[1..], rest);
    }
  }

  lemma LastWords(front: string, last: string, endFront: string, word: string)
    requires IsWord(last) && IsWord(word)
    ensures EndsWith(front + "_" + last, endFront + "_" + word) <==> last == word && EndsWith(front, endFront)
  {
    var text, end := front + "_" + last, endFront + "_" + word;
    var k := |text| - |end|;
    if |word| < |last| {
      assert 0 <= k ==> text[k..][|endFront|] == last[|last| - |word| - 1] && end[|endFront|] == '_';
    } else if |word| > |last| {
      assert 0 <= k ==> text[k..][|front| - k] == '_' && end[|front| - k] == word[|word| - |last| - 1];
    } else if 0 <= k {
      assert text[k..] == front[k..] + "_" + last;
      SameParts(front[k..], last, endFront, word);
    }
  }

  lemma SameParts(a: string, x: string, b: string, y: string)
    requires |a| == |b|
    ensures a + "_" + x == b + "_" + y <==> a == b && x == y
  {
    var left, right := a + "_" + x, b + "_" + y;
    assert left[..|a|] == a && left[|a| + 1..] == x && right[..|b|] == b && right[|b| + 1..] == y;
  }

  lemma OneWordHasNoSuffix(word: string, end: string)
    requires IsWord(word) || word == []
    requires '_' in end
    ensures !EndsWith(word, end)
  {
    var i :| 0 <= i < |end| && end[i] == '_';
    assert |end| <= |word| ==> word[|word| - |end|..][i] == word[|word| - |end| + i];
  }

  predicate HasSuffix(words: seq<string>, suffix: seq<string>) {
    |words| > |suffix| && words[|words| - |suffix|..] == suffix
  }

  lemma {:induction false} JoinEndsWith(words: seq<string>, suffix: seq<string>)
    requires AreWords(words) && AreWords(suffix) && suffix != []
    ensures EndsWith(Join(words, "_"), "_" + Join(suffix, "_")) <==> HasSuffix(words, suffix)
    decreases |suffix|
  {
    var n, m := |words| - 1, |suffix| - 1;
    var end := "_" + Join(suffix, "_");
    if n <= 0 {
      assert end[0] == '_';
      OneWordHasNoSuffix(Join(words, "_"), end);
    } else {
      var text := Join(words[..n], "_");
      assert words == words[..n] + [words[n]] && suffix == suffix[..m] + [suffix[m]];
      JoinMore(words[..n], words[n], "_");
      if m == 0 {
        LastWords(text, words[n], "", suffix[0]);
        assert end == "" + "_" + suffix[0] && EndsWith(text, "");
        assert words[n..] == [words[n]];
      } else {
        JoinMore(suffix[..m], suffix[m], "_");
        Associate("_", Join(suffix[..m], "_"), "_", suffix[m]);
        LastWords(text, words[n], "_" + Join(suffix[..m], "_"), suffix[m]);
        JoinEndsWith(words[..n], suffix[..m]);
        SuffixStep(words, suffix);
      }
    }
  }

  lemma SuffixStep(words: seq<string>, suffix: seq<string>)
    requires |words| > 1 && |suffix| > 1
    ensures var n, m := |words| - 1, |suffix| - 1;
      HasSuffix(words, suffix) <==> words[n] == suffix[m] && HasSuffix(words[..n], suffix[..m])
  {
    var n, m := |words| - 1, |suffix| - 1;
    if n > m {
      assert words[n - m..] == words[..n][n - m..] + [words[n]];
      assert suffix == suffix[..m] + [suffix[m]];
    }
  }

  /** A suffix test with a leading separator looks at whole words: it holds iff the
      last words are those tested for and are not the only ones. */
  lemma SuffixIsLastWords(key: string, suffix: seq<string>)
    requires AreWords(suffix) && suffix != []
    ensures EndsWith(Normalized(key, '_'), "_" + Join(suffix, "_")) <==> HasSuffix(WordsOf(key), suffix)
  {
    WordsAreWords(key);
    JoinEndsWith(WordsOf(key), suffix);
  }

  // ------------------------------------------------------ verdicts by words

  /** What the tests on the form with separators accept, but for the two that the
      compact form repeats. */
  predicate IsSensitiveApart(words: seq<string>) {
    IsListed(Join(words, "_")) || HasSensitiveSuffix(words)
  }

  predicate HasSensitiveSuffix(words: seq<string>) {
    || HasSuffix(words, ["password"]) || HasSuffix(words, ["secret"]) || HasSuffix(words, ["token"])
    || HasSuffix(words, ["private", "key"]) || HasSuffix(words, ["private", "key", "pem"])
  }

  /** What the tests on the compact form accept. */
  predicate IsSensitiveTogether(compact: string) {
    IsListedCompact(compact) || Contains(compact, "keyencryptionkey") || Contains(compact, "recoverycode")
  }

  lemma {:induction false} WithoutConcat(a: string, b: string, c: char)
    ensures Without(a + b, c) == Without(a, c) + Without(b, c)
  {
    if a == [] {
      assert a + b == b;
    } else {
      assert (a + b)[1..] == a[1..] + b;
      WithoutConcat(a[1..], b, c);
    }
  }

  lemma ContainsWithout(text: string, part: string, c: char)
    requires Contains(text, part)
    ensures Contains(Without(text, c), Without(part, c))
  {
    var i :| 0 <= i <= |text| && part <= text[i..];
    var front, back := text[..i], text[i + |part|..];
    assert text[i..] == part + back && text == front + text[i..];
    WithoutConcat(front, text[i..], c);
    WithoutConcat(part, back, c);
    assert Without(text, c)[|Without(front, c)|..] == Without(part, c) + Without(back, c);
  }

  lemma TwoWordsTogether(a: string, b: string)
    requires IsWord(a) && IsWord(b)
    ensures Without(a + "_" + b, '_') == a + b
  {
    CompactIsWords([a, b]);
    assert [a, b][1..] == [b] && a + "" == a;
  }

  lemma RecoveryCodeTogether()
    ensures Without("recovery_code", '_') == "recoverycode"
  {
    TwoWordsTogether("recovery", "code");
    assert "recovery" + "_" + "code" == "recovery_code";
    assert "recovery" + "code" == "recoverycode";
  }

  lemma RecoveryCodeIsSeenTogether(words: seq<string>)
    requires AreWords(words)
    ensures Contains(Join(words, "_"), "recovery_code") ==> Contains(Join(words, ""), "recoverycode")
  {
    CompactIsWords(words);
    if Contains(Join(words, "_"), "recovery_code") {
      ContainsWithout(Join(words, "_"), "recovery_code", '_');
      RecoveryCodeTogether();
    }
  }

  lemma SuffixTests(key: string)
    ensures var normalized, words := Normalized(key, '_'), WordsOf(key);
      && (EndsWith(normalized, "_password") <==> HasSuffix(words, ["password"]))
      && (EndsWith(normalized, "_secret") <==> HasSuffix(words, ["secret"]))
      && (EndsWith(normalized, "_token") <==> HasSuffix(words, ["token"]))
  {
    SuffixIsLastWords(key, ["password"]);
    SuffixIsLastWords(key, ["secret"]);
    SuffixIsLastWords(key, ["token"]);
    assert "_" + "password" == "_password" && "_" + "secret" == "_secret" && "_" + "token" == "_token";
  }

  lemma PrivateKeyTests(key: string)
    ensures var normalized, words := Normalized(key, '_'), WordsOf(key);
      && (EndsWith(normalized, "_private_key") <==> HasSuffix(words, ["private", "key"]))
      && (EndsWith(normalized, "_private_key_pem") <==> HasSuffix(words, ["private", "key", "pem"]))
  {
    assert "_" + Join(["private", "key"], "_") == "_private_key";
    assert ["private", "key", "pem"][1..] == ["key", "pem"];
    assert Join(["key", "pem"], "_") == "key_pem";
    assert "_" + Join(["private", "key", "pem"], "_") == "_private_key_pem";
    SuffixIsLastWords(key, ["private", "key"]);
    SuffixIsLastWords(key, ["private", "key", "pem"]);
  }

  /** The verdict on a key, by its words alone. */
  lemma VerdictByWords(key: string)
    ensures IsSensitiveMetadataKey(key)
       <==> IsSensitiveApart(WordsOf(key)) || IsSensitiveTogether(Join(WordsOf(key), ""))
  {
    hide IsListed, IsListedCompact;
    WordsAreWords(key);
    CompactIsWords(WordsOf(key));
    RecoveryCodeIsSeenTogether(WordsOf(key));
    SuffixTests(key);
    PrivateKeyTests(key);
  }

  lemma {:induction false} JoinedIsWord(words: seq<string>)
    requires AreWords(words) && words != []
    ensures IsWord(Join(words, ""))
  {
    assert IsWord(words[0]);
    if |words| > 1 {
      JoinedIsWord(words[1..]);
      assert Join(words, "") == words[0] + "" + Join(words[1..], "");
    }
  }

  lemma OneWord(word: string)
    requires IsWord(word)
    ensures WordsOf(word) == [word]
  {
    assert LowercaseAll(word) == word && [] + word == word;
    WordIsAdded([], word);
  }

  /** The listed keys of one word. */
  const ONE_WORD_KEYS: set<string> := { "password", "secret", "token", "code", "kek", "signature" }

  predicate IsOneWordKey(key: string) {
    key in ONE_WORD_KEYS
  }

  predicate SameEnds(a: string, b: string)
    requires a != [] && b != []
  {
    a[0] == b[0] && a[|a| - 1] == b[|b| - 1]
  }

  /** No other listed key begins and ends like one of them. */
  lemma OneWordKeysByTheirEnds(key: string, word: string)
    requires key != [] && IsOneWordKey(word) && SameEnds(key, word)
    ensures IsListed(key) ==> IsOneWordKey(key)
  {
  }

  lemma OneWordKeysAreNotCompact(word: string)
    requires IsOneWordKey(word)
    ensures !IsListedCompact(word)
  {
  }

  lemma OneWordKeysAreTheUnseparated(key: string)
    ensures IsOneWordKey(key) <==> IsListed(key) && '_' !in key
  {
    assert IsListed(key) && !IsOneWordKey(key) ==> |key| >= 8;
    assert IsListed(key) && !IsOneWordKey(key) ==>
      || key[2] == '_' || key[3] == '_' || key[4] == '_' || key[5] == '_' || key[6] == '_' || key[7] == '_'
      || (|key| >= 13 && key[8] == '_') || (|key| >= 15 && key[10] == '_')
      || (|key| >= 14 && (key[11] == '_' || key[12] == '_' || key[13] == '_'));
  }

  lemma {:induction false} EndsOfJoin(words: seq<string>, between: string)
    requires AreWords(words) && words != []
    ensures var text, n := Join(words, between), |words| - 1;
      && text != [] && text[0] == words[0][0] && text[|text| - 1] == words[n][|words[n]| - 1]
      && (n > 0 ==> |text| > |words[n]|)
      && (n > 0 && between == "_" ==> '_' in text)
  {
    var n := |words| - 1;
    assert IsWord(words[0]) && IsWord(words[n]);
    if n > 0 {
      EndsOfJoin(words[..n], between);
      assert words == words[..n] + [words[n]];
      JoinMore(words[..n], words[n], between);
      if between == "_" {
        assert Join(words, between)[|Join(words[..n], between)|] == '_';
      }
    }
  }

  lemma JoinsEndAlike(words: seq<string>)
    requires AreWords(words) && |words| >= 2
    ensures var apart, together, last := Join(words, "_"), Join(words, ""), words[|words| - 1];
      && apart != [] && together != [] && SameEnds(apart, together) && '_' in apart
      && last != [] && |last| < |together| && last[|last| - 1] == together[|together| - 1]
  {
    EndsOfJoin(words, "_");
    EndsOfJoin(words, "");
    assert IsWord(words[|words| - 1]);
  }

  lemma NotListed(apart: string, together: string)
    requires apart != [] && together != [] && SameEnds(apart, together) && '_' in apart && IsOneWordKey(together)
    ensures !IsListed(apart) && !IsListedCompact(together)
  {
    hide IsListed, IsListedCompact, IsOneWordKey;
    OneWordKeysByTheirEnds(apart, together);
    OneWordKeysAreNotCompact(together);
    OneWordKeysAreTheUnseparated(apart);
  }

  lemma NotListedApart(words: seq<string>)
    requires AreWords(words) && |words| >= 2 && IsOneWordKey(Join(words, ""))
    ensures !IsListed(Join(words, "_")) && !IsListedCompact(Join(words, ""))
  {
    hide IsListed, IsListedCompact, IsOneWordKey, AreWords;
    JoinsEndAlike(words);
    NotListed(Join(words, "_"), Join(words, ""));
  }

  lemma OneWordKeysAreShort(word: string)
    requires IsOneWordKey(word)
    ensures |word| < |"recoverycode"| < |"keyencryptionkey"|
  {
  }

  /** The words that the suffix tests look for last. */
  predicate EndsSuffix(last: string) {
    last == "password" || last == "secret" || last == "token" || last == "key" || last == "pem"
  }

  lemma NoSuffixWord(word: string, last: string)
    requires IsOneWordKey(word) && last != [] && |last| < |word| && last[|last| - 1] == word[|word| - 1]
    ensures !EndsSuffix(last)
  {
  }

  lemma SuffixEnds(words: seq<string>)
    requires words != [] && HasSensitiveSuffix(words)
    ensures EndsSuffix(words[|words| - 1])
  {
    SuffixEndsAlike(words, ["password"]);
    SuffixEndsAlike(words, ["secret"]);
    SuffixEndsAlike(words, ["token"]);
    SuffixEndsAlike(words, ["private", "key"]);
    SuffixEndsAlike(words, ["private", "key", "pem"]);
  }

  lemma SuffixEndsAlike(words: seq<string>, suffix: seq<string>)
    requires words != [] && suffix != []
    ensures HasSuffix(words, suffix) ==> words[|words| - 1] == suffix[|suffix| - 1]
  {
    assert |words| > |suffix| ==> words[|words| - |suffix|..][|suffix| - 1] == words[|words| - 1];
  }

  lemma NoSensitiveSuffix(words: seq<string>)
    requires AreWords(words) && |words| >= 2 && IsOneWordKey(Join(words, ""))
    ensures !HasSensitiveSuffix(words)
  {
    hide HasSensitiveSuffix, IsOneWordKey, EndsSuffix, AreWords;
    JoinsEndAlike(words);
    NoSuffixWord(Join(words, ""), words[|words| - 1]);
    if HasSensitiveSuffix(words) {
      SuffixEnds(words);
    }
  }

  /** Words that make a one-word key together are not sensitive apart. */
  lemma ApartIsNotSensitive(words: seq<string>)
    requires AreWords(words) && |words| >= 2 && IsOneWordKey(Join(words, ""))
    ensures !IsSensitiveApart(words) && !IsSensitiveTogether(Join(words, ""))
  {
    hide HasSensitiveSuffix, IsListed, IsListedCompact, IsOneWordKey, Join;
    NotListedApart(words);
    NoSensitiveSuffix(words);
    OneWordKeysAreShort(Join(words, ""));
  }

  lemma OneWordAlone(word: string)
    requires IsWord(word)
    ensures IsSensitiveApart([word]) <==> IsOneWordKey(word)
    ensures Join([word], "") == word
  {
    hide IsListed, IsOneWordKey;
    OneWordKeysAreTheUnseparated(word);
  }

  lemma VerdictsApartAndTogether(words: seq<string>)
    requires AreWords(words)
    ensures IsSensitiveMetadataKey(Join(words, "_")) <==> IsSensitiveApart(words) || IsSensitiveTogether(Join(words, ""))
    ensures words != [] ==>
      (IsSensitiveMetadataKey(Join(words, "")) <==> IsOneWordKey(Join(words, "")) || IsSensitiveTogether(Join(words, "")))
  {
    hide IsSensitiveMetadataKey, IsSensitiveTogether, IsSensitiveApart, IsOneWordKey;
    VerdictByWords(Join(words, "_"));
    VerdictByWords(Join(words, ""));
    WordsOfJoin(words, '_');
    if words != [] {
      JoinedIsWord(words);
      OneWord(Join(words, ""));
      OneWordAlone(Join(words, ""));
    }
  }

  /** Writing the words of a key together, as in camel case, changes its verdict
      only if there are several.  It becomes sensitive iff together they are one
      of the six listed words, and stops being so iff a list or suffix test
      accepts them apart and no test on the compact form does. */
  lemma WritingTogetherKeepsVerdict(words: seq<string>)
    requires AreWords(words)
    ensures !IsSensitiveMetadataKey(Join(words, "_")) && IsSensitiveMetadataKey(Join(words, ""))
       <==> |words| >= 2 && IsOneWordKey(Join(words, ""))
    ensures IsSensitiveMetadataKey(Join(words, "_")) && !IsSensitiveMetadataKey(Join(words, ""))
       <==> |words| >= 2 && IsSensitiveApart(words) && !IsSensitiveTogether(Join(words, ""))
  {
    hide IsSensitiveMetadataKey, IsSensitiveTogether, IsSensitiveApart, IsOneWordKey;
    VerdictsApartAndTogether(words);
    if |words| >= 2 {
      if IsOneWordKey(Join(words, "")) {
        ApartIsNotSensitive(words);
      }
    } else if |words| == 1 {
      assert IsWord(words[0]) && words == [words[0]];
      OneWordAlone(words[0]);
    }
  }

  /** A key that becomes sensitive when written together. */
  lemma PassWordNeedsNoSeparator()
    ensures !IsSensitiveMetadataKey("pass_word") && IsSensitiveMetadataKey("password")
  {
    var words := ["pass", "word"];
    assert Join(words, "_") == "pass_word" && Join(words, "") == "password";
    WritingTogetherKeepsVerdict(words);
  }

  /** Keys in upper case, or begun with it, are sensitive too. */
  lemma PasswordInAnyCase()
    ensures IsSensitiveMetadataKey("Password") && IsSensitiveMetadataKey("PASSWORD")
  {
    Spelt("Password", "password");
    Spelt("PASSWORD", "password");
    LastWordDecides("Password");
    LastWordDecides("PASSWORD");
  }

  lemma AccessTokenIsNotListed()
    ensures !IsListed("accesstoken") && !IsListedCompact("accesstoken")
  {
    assert |"accesstoken"| == 11 && "accesstoken"[7] == 'o';
  }

  lemma UnlistedWord(key: string, word: string)
    requires WordsOf(key) == [word] && |word| < |"recoverycode"|
    requires !IsListed(word) && !IsListedCompact(word)
    ensures !IsSensitiveMetadataKey(key)
  {
    hide IsSensitiveMetadataKey;
    VerdictByWords(key);
    assert |"recoverycode"| < |"keyencryptionkey"|;
  }

  lemma AccessTokenTogether()
    ensures !IsSensitiveMetadataKey("accessToken")
  {
    hide IsSensitiveMetadataKey;
    Spelt("accessToken", "accesstoken");
    AccessTokenIsNotListed();
    UnlistedWord("accessToken", "accesstoken");
  }

  lemma AccessTokenApart()
    ensures IsSensitiveMetadataKey("access_token")
  {
    var words := ["access", "token"];
    assert Join(words, "_") == "access_token";
    WordsOfJoin(words, '_');
    assert Normalized("access_token", '_') == "access_token";
  }

  lemma IdTokenTogether()
    ensures IsSensitiveMetadataKey("idToken")
  {
    Spelt("idToken", "idtoken");
    VerdictByWords("idToken");
  }

  /** Such a key: it is sensitive as two words, but not in camel case, unlike the
      identity token. */
  lemma AccessTokenNeedsItsSeparator()
    ensures IsSensitiveMetadataKey("access_token") && !IsSensitiveMetadataKey("accessToken")
    ensures IsSensitiveMetadataKey("idToken")
  {
    AccessTokenApart();
    AccessTokenTogether();
    IdTokenTogether();
  }

  lemma Spelt(key: string, word: string)
    requires IsSpeltWord(key) && LowercaseAll(key) == word
    ensures WordsOf(key) == [word]
  {
    assert [] + key == key;
    WordIsAdded([], key);
  }

  /** A key is sensitive whatever comes before its last word, if that is a
      password, a secret or a token. */
  lemma LastWordDecides(key: string)
    requires WordsOf(key) != [] && WordsOf(key)[|WordsOf(key)| - 1] in ["password", "secret", "token"]
    ensures IsSensitiveMetadataKey(key)
  {
    var words := WordsOf(key);
    VerdictByWords(key);
    assert words[|words| - 1..] == [words[|words| - 1]];
    assert |words| == 1 ==> Join(words, "_") == words[0];
  }

  // ---------------------------------------------------------------- values

  /** A JSON value; objects list their fields in key order. */
  datatype Json =
    | Null
    | Bool(value: bool)
    | Number(digits: string)
    | Str(text: string)
    | Array(items: seq<Json>)
    | Object(fields: seq<Field>)

  datatype Field = Field(key: string, value: Json)

  const MARKER := Str("[redacted]")

  function RedactSensitiveMetadata(value: Json): Json {
    match value
    case Object(fields) =>
      Object(seq(|fields|, i requires 0 <= i < |fields| =>
        Field(fields[i].key,
              if IsSensitiveMetadataKey(fields[i].key) then MARKER else RedactSensitiveMetadata(fields[i].value))))
    case Array(items) =>
      Array(seq(|items|, i requires 0 <= i < |items| => RedactSensitiveMetadata(items[i])))
    case other => other
  }

  /** Equal except under sensitive keys. */
  predicate Agree(a: Json, b: Json) {
    match a
    case Object(fields) =>
      && b.Object? && |b.fields| == |fields|
      && forall i :: 0 <= i < |fields| ==>
           && b.fields[i].key == fields[i].key
           && (IsSensitiveMetadataKey(fields[i].key) || Agree(fields[i].value, b.fields[i].value))
    case Array(items) =>
      b.Array? && |b.items| == |items| && forall i :: 0 <= i < |items| ==> Agree(items[i], b.items[i])
    case _ => a == b
  }

  /** Two values are redacted to the same iff they are equal everywhere except
      under sensitive keys: redaction hides exactly that. */
  lemma {:induction false} RedactedSameIffAgree(a: Json, b: Json)
    ensures RedactSensitiveMetadata(a) == RedactSensitiveMetadata(b) <==> Agree(a, b)
    decreases a
  {
    if a.Object? && b.Object? && |a.fields| == |b.fields| {
      SameFields(a, b);
    } else if a.Array? && b.Array? && |a.items| == |b.items| {
      SameItems(a, b);
    } else if a.Object? && b.Object? {
      assert |RedactSensitiveMetadata(a).fields| != |RedactSensitiveMetadata(b).fields|;
    } else if a.Array? && b.Array? {
      assert |RedactSensitiveMetadata(a).items| != |RedactSensitiveMetadata(b).items|;
    }
  }

  lemma {:induction false} SameItems(a: Json, b: Json)
    requires a.Array? && b.Array? && |a.items| == |b.items|
    ensures RedactSensitiveMetadata(a) == RedactSensitiveMetadata(b) <==> Agree(a, b)
    decreases a, 0
  {
    var left, right := RedactSensitiveMetadata(a).items, RedactSensitiveMetadata(b).items;
    assert left == right <==> forall i :: 0 <= i < |left| ==> left[i] == right[i];
    forall i | 0 <= i < |left|
      ensures left[i] == right[i] <==> Agree(a.items[i], b.items[i])
    {
      RedactedSameIffAgree(a.items[i], b.items[i]);
    }
  }

  lemma {:induction false} SameFields(a: Json, b: Json)
    requires a.Object? && b.Object? && |a.fields| == |b.fields|
    ensures RedactSensitiveMetadata(a) == RedactSensitiveMetadata(b) <==> Agree(a, b)
    decreases a, 0
  {
    var left, right := RedactSensitiveMetadata(a).fields, RedactSensitiveMetadata(b).fields;
    assert left == right <==> forall i :: 0 <= i < |left| ==> left[i] == right[i];
    forall i | 0 <= i < |left|
      ensures left[i] == right[i] <==>
        && b.fields[i].key == a.fields[i].key
        && (IsSensitiveMetadataKey(a.fields[i].key) || Agree(a.fields[i].value, b.fields[i].value))
    {
      RedactedSameIffAgree(a.fields[i].value, b.fields[i].value);
    }
  }

  lemma {:induction false} RedactedAgrees(value: Json)
    ensures Agree(RedactSensitiveMetadata(value), value)
  {
    if value.Object? {
      forall i | 0 <= i < |value.fields|
        ensures IsSensitiveMetadataKey(value.fields[i].key) || Agree(RedactSensitiveMetadata(value.fields[i].value), value.fields[i].value)
      {
        RedactedAgrees(value.fields[i].value);
      }
    } else if value.Array? {
      forall i | 0 <= i < |value.items|
        ensures Agree(RedactSensitiveMetadata(value.items[i]), value.items[i])
      {
        RedactedAgrees(value.items[i]);
      }
    }
  }

  /** Redacting again changes nothing. */
  lemma {:induction false} RedactionIsIdempotent(value: Json)
    ensures RedactSensitiveMetadata(RedactSensitiveMetadata(value)) == RedactSensitiveMetadata(value)
  {
    RedactedAgrees(value);
    RedactedSameIffAgree(RedactSensitiveMetadata(value), value);
  }

  // ----------------------------------------------------------------- places

  /** The value at a place, given by positions in arrays and objects. */
  function At(value: Json, path: seq<nat>): Option<Json>
    decreases |path|
  {
    if path == [] then Some(value)
    else if value.Array? && path[0] < |value.items| then At(value.items[path[0]], path[1..])
    else if value.Object? && path[0] < |value.fields| then At(value.fields[path[0]].value, path[1..])
    else None
  }

  /** How many steps into the path the first sensitive key is, if there is one. */
  function Hidden(value: Json, path: seq<nat>): Option<nat>
    decreases |path|
  {
    if path == [] then None
    else if value.Array? && path[0] < |value.items| then
      var rest := Hidden(value.items[path[0]], path[1..]);
      if rest.None? then None else Some(rest.value + 1)
    else if value.Object? && path[0] < |value.fields| then
      if IsSensitiveMetadataKey(value.fields[path[0]].key) then Some(1)
      else
        var rest := Hidden(value.fields[path[0]].value, path[1..]);
        if rest.None? then None else Some(rest.value + 1)
    else None
  }

  /** The kind of a value and what it holds directly: a leaf itself, the keys of an
      object, the length of an array. */
  predicate SameShape(a: Json, b: Json) {
    match a
    case Object(fields) =>
      b.Object? && |b.fields| == |fields| && forall i :: 0 <= i < |fields| ==> b.fields[i].key == fields[i].key
    case Array(items) => b.Array? && |b.items| == |items|
    case _ => a == b
  }

  /** Place by place: outside sensitive keys everything is kept; at the first
      sensitive key there is the marker, and nothing below it. */
  lemma {:induction false} RedactionPlaceByPlace(value: Json, path: seq<nat>)
    ensures var before, after := At(value, path), At(RedactSensitiveMetadata(value), path);
      match Hidden(value, path)
      case None => before.Some? == after.Some? && (before.Some? ==> SameShape(before.value, after.value))
      case Some(n) => after == if n == |path| then Some(Str("[redacted]")) else None
    decreases |path|
  {
    if path != [] {
      if value.Array? && path[0] < |value.items| {
        RedactionPlaceByPlace(value.items[path[0]], path[1..]);
      } else if value.Object? && path[0] < |value.fields| {
        RedactionPlaceByPlace(value.fields[path[0]].value, path[1..]);
        assert path[1..] != [] ==> At(MARKER, path[1..]).None?;
      }
    }
  }
}
