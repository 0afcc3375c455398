/** The slug of a provisioned group: its words behind a fixed prefix, cut to the
    length that the domain allows. */
module ScimSlug {
  import opened Strings
  import opened Utf8
  import opened Words
  import opened Wrappers

  datatype DomainError = EmptyField(field: string) | FieldTooLong(field: string, max: nat)

  /** A UUID by its groups of hexadecimal digits. */
  datatype Uuid = Uuid(groups: seq<string>) {
    predicate Valid() {
      && |groups| == 5
      && |groups[0]| == 8 && |groups[1]| == 4 && |groups[2]| == 4 && |groups[3]| == 4 && |groups[4]| == 12
      && forall i, j :: 0 <= i < |groups| && 0 <= j < |groups[i]| ==> IsHexDigit(groups[i][j])
    }

    function Text(): string {
      Join(groups, "-")
    }
  }

  predicate IsHexDigit(c: char) {
    '0' <= c <= '9' || 'a' <= c <= 'f'
  }

  const MAX_LENGTH := 80

  // ----------------------------------------------------------------- checks

  /** White_Space of Unicode. */
  predicate IsWhitespace(c: char) {
    var n := c as int;
    || 0x09 <= n <= 0x0D || n == 0x20 || n == 0x85 || n == 0xA0 || n == 0x1680 || 0x2000 <= n <= 0x200A
    || n == 0x2028 || n == 0x2029 || n == 0x202F || n == 0x205F || n == 0x3000
  }

  /** Lengths are those of the UTF-8 text. */
  function CheckedString(field: string, value: string, max: nat): (r: Result<string, DomainError>)
    ensures r.Ok? ==> r.value != [] && |Encode(r.value)| <= max
  {
    var trimmed := Trim(value, IsWhitespace);
    if trimmed == [] then Err(EmptyField(field))
    else if |Encode(trimmed)| > max then Err(FieldTooLong(field, max))
    else Ok(trimmed)
  }

  /** White_Space of Unicode by its code points. */
  const WHITE_SPACE: seq<int> := [
    0x09, 0x0A, 0x0B, 0x0C, 0x0D, 0x20, 0x85, 0xA0, 0x1680, 0x2000, 0x2001, 0x2002, 0x2003, 0x2004, 0x2005, 0x2006,
    0x2007, 0x2008, 0x2009, 0x200A, 0x2028, 0x2029, 0x202F, 0x205F, 0x3000 ]

  lemma WhitespaceByCodePoint(c: char)
    ensures IsWhitespace(c) <==> c as int in WHITE_SPACE
  {
    var n := c as int;
    assert 0x09 <= n <= 0x0D ==> WHITE_SPACE[n - 0x09] == n;
    assert 0x2000 <= n <= 0x200A ==> WHITE_SPACE[9 + n - 0x2000] == n;
  }

  /** What passes and what does not, for a value with any white space around it: an
      empty one and one of more bytes than allowed are refused, each with its
      error. */
  lemma CheckedIff(field: string, front: string, value: string, back: string, max: nat)
    requires forall c :: c in front + back ==> c as int in WHITE_SPACE
    requires value != [] ==> value[0] as int !in WHITE_SPACE && value[|value| - 1] as int !in WHITE_SPACE
    ensures CheckedString(field, front + value + back, max)
         == if value == [] then Err(EmptyField(field))
            else if |Encode(value)| > max then Err(FieldTooLong(field, max))
            else Ok(value)
  {
    forall c | c in front + back
      ensures IsWhitespace(c)
    {
      WhitespaceByCodePoint(c);
    }
    if value != [] {
      WhitespaceByCodePoint(value[0]);
      WhitespaceByCodePoint(value[|value| - 1]);
    }
    TrimAround(front, value, back, IsWhitespace);
  }

  // ------------------------------------------------------------------- slug

  function Full(groupId: Uuid, seed: string): string {
    "scim-" + if Normalized(seed, '-') == "" then groupId.Text() else Normalized(seed, '-')
  }

  function Fitted(full: string): string {
    if |full| > MAX_LENGTH then TrimEnd(full[..MAX_LENGTH], Is('-')) else full
  }

  function Slug(groupId: Uuid, seed: string): string {
    Fitted(Full(groupId, seed))
  }

  method ScimGroupSlug(groupId: Uuid, externalId: Option<string>, displayName: string)
    returns (r: Result<string, DomainError>)
    requires groupId.Valid()
    ensures r == Ok(Slug(groupId, if externalId.Some? then externalId.value else displayName))
  {
    var seed := if externalId.Some? then externalId.value else displayName;
    var base: string := [];
    for i := 0 to |seed|
      invariant base == Collapsed(seed[..i], '-')
    {
      var character := seed[i];
      assert seed[..i + 1][..i] == seed[..i];
      if IsAlphanumeric(character) {
        base := base + [Lowercase(character)];
      } else if !EndsWith(base, "-") {
        base := base + ['-'];
      }
    }
    assert seed[..|seed|] == seed;
    TrimmedIsNormalized(seed, '-');
    base := Trim(base, Is('-'));
    if base == [] {
      base := groupId.Text();
    }
    var slug := "scim-" + base;
    if |slug| > MAX_LENGTH {
      slug := slug[..MAX_LENGTH];
      while EndsWith(slug, "-")
        invariant TrimEnd(slug, Is('-')) == Slug(groupId, seed)
        decreases |slug|
      {
        slug := slug[..|slug| - 1];
      }
    }
    SlugForm(groupId, seed);
    CheckedSlug(slug);
    r := CheckedString("slug", slug, MAX_LENGTH);
  }

  /** A slug has nothing to trim, and one byte for each character. */
  lemma CheckedSlug(slug: string)
    requires IsNormal(slug, '-') && slug != [] && |slug| <= MAX_LENGTH
    ensures CheckedString("slug", slug, MAX_LENGTH) == Ok(slug)
  {
    assert [] + slug + [] == slug;
    TrimAround([], slug, [], IsWhitespace);
    EncodeAscii(slug);
  }

  // -------------------------------------------------------------- guarantees

  lemma UuidIsNormal(id: Uuid)
    requires id.Valid()
    ensures IsNormal(id.Text(), '-') && id.Text() != [] && id.Text()[0] != '-'
  {
    assert AreWords(id.groups);
    WordsOfJoin(id.groups, '-');
    NormalIffNormalized(id.Text(), '-');
    FirstOfJoin(id.groups, "-");
  }

  lemma FullForm(groupId: Uuid, seed: string)
    requires groupId.Valid()
    ensures IsNormal(Full(groupId, seed), '-') && "scim-" <= Full(groupId, seed) && |Full(groupId, seed)| > |"scim-"|
  {
    UuidIsNormal(groupId);
    NormalizedIsNormal(seed, '-');
    var base := if Normalized(seed, '-') == "" then groupId.Text() else Normalized(seed, '-');
    PrefixedIsNormal("scim", base);
    assert "scim" + "-" + base == "scim-" + base;
  }

  lemma PrefixedIsNormal(word: string, base: string)
    requires IsWord(word) && IsNormal(base, '-') && base != []
    ensures IsNormal(word + "-" + base, '-')
  {
    var text, k := word + "-" + base, |word|;
    assert forall i :: 0 <= i < k ==> text[i] == word[i];
    assert forall i :: k < i < |text| ==> text[i] == base[i - k - 1];
  }

  /** Cutting a normal text and dropping the separator that may then end it keeps
      it normal and drops at most one character. */
  lemma CutIsNormal(text: string, n: nat, separator: char)
    requires IsNormal(text, separator) && 2 <= n <= |text|
    ensures var cut := TrimEnd(text[..n], Is(separator));
      IsNormal(cut, separator) && cut <= text && n - 1 <= |cut| <= n
  {
    var front, cut := text[..n], TrimEnd(text[..n], Is(separator));
    assert |cut| < n ==> Is(separator)(front[n - 1]);
    assert !(front[n - 2] == separator && front[n - 1] == separator);
  }

  /** For every identifier and name: the prefix, then at least one word, joined by
      single hyphens, within the length. */
  lemma SlugForm(groupId: Uuid, seed: string)
    requires groupId.Valid()
    ensures var slug := Slug(groupId, seed);
      && |slug| <= 80
      && IsNormal(slug, '-')
      && "scim-" <= slug && |slug| > |"scim-"|
      && slug == Join(WordsOf(slug), "-") && AreWords(WordsOf(slug))
  {
    var full, slug := Full(groupId, seed), Slug(groupId, seed);
    FullForm(groupId, seed);
    if |full| > MAX_LENGTH {
      CutIsNormal(full, MAX_LENGTH, '-');
    }
    NormalIffNormalized(slug, '-');
    WordsAreWords(slug);
  }

  /** Only what does not fit is lost, and a hyphen that would end the cut. */
  lemma SlugIsFront(groupId: Uuid, seed: string)
    requires groupId.Valid()
    ensures var full, slug := Full(groupId, seed), Slug(groupId, seed);
      && slug <= full
      && (|full| <= MAX_LENGTH ==> slug == full)
      && (|full| > MAX_LENGTH ==> |slug| == if full[MAX_LENGTH - 1] == '-' then MAX_LENGTH - 1 else MAX_LENGTH)
  {
    var full := Full(groupId, seed);
    FullForm(groupId, seed);
    if |full| > MAX_LENGTH {
      CutIsNormal(full, MAX_LENGTH, '-');
      var front, slug := full[..MAX_LENGTH], Slug(groupId, seed);
      assert |slug| < MAX_LENGTH ==> Is('-')(front[MAX_LENGTH - 1]);
    }
  }

  /** The words behind the prefix before the cut: those of the name or, if it has
      none, the groups of the identifier. */
  function WordsBehind(groupId: Uuid, seed: string): seq<string> {
    if WordsOf(seed) == [] then groupId.groups else WordsOf(seed)
  }

  lemma FullByWords(groupId: Uuid, seed: string)
    requires groupId.Valid()
    ensures AreWords(WordsBehind(groupId, seed))
    ensures Full(groupId, seed) == "scim-" + Join(WordsBehind(groupId, seed), "-")
  {
    WordsAreWords(seed);
    if WordsOf(seed) != [] {
      FirstOfJoin(WordsOf(seed), "-");
    }
  }

  lemma SameFullIffSameWords(id: Uuid, other: Uuid, a: string, b: string)
    requires id.Valid() && other.Valid()
    ensures Full(id, a) == Full(other, b) <==> WordsBehind(id, a) == WordsBehind(other, b)
  {
    FullByWords(id, a);
    FullByWords(other, b);
    WordsOfJoin(WordsBehind(id, a), '-');
    WordsOfJoin(WordsBehind(other, b), '-');
    assert Full(id, a)[5..] == Join(WordsBehind(id, a), "-") && Full(other, b)[5..] == Join(WordsBehind(other, b), "-");
  }

  lemma SameCutIffSameFront(a: string, b: string, separator: char, n: nat)
    requires IsNormal(a, separator) && IsNormal(b, separator) && 2 <= n < |a|
    ensures n < |b| ==> (TrimEnd(a[..n], Is(separator)) == TrimEnd(b[..n], Is(separator)) <==> a[..n] == b[..n])
    ensures |b| <= n ==> (TrimEnd(a[..n], Is(separator)) == b <==> a[..n] == b || a[..n] == b + [separator])
  {
    var front, cut := a[..n], TrimEnd(a[..n], Is(separator));
    CutIsNormal(a, n, separator);
    assert front == cut || front == cut + [separator];
    if n < |b| {
      CutIsNormal(b, n, separator);
      assert b[..n] == TrimEnd(b[..n], Is(separator)) || b[..n] == TrimEnd(b[..n], Is(separator)) + [separator];
    } else {
      assert front == b + [separator] ==> front[..n - 1] == b;
      assert front == cut + [separator] ==> front[..n - 1] == cut;
    }
  }

  /** When two groups collide, for all identifiers and names: two slugs that fit,
      iff their words are the same; two that are cut, iff their first 80
      characters are; and one of each, iff those of the longer are the shorter,
      with or without a hyphen behind. */
  lemma SameSlugIff(id: Uuid, other: Uuid, a: string, b: string)
    requires id.Valid() && other.Valid()
    ensures var x, y := Full(id, a), Full(other, b);
      Slug(id, a) == Slug(other, b) <==>
        if |x| <= MAX_LENGTH && |y| <= MAX_LENGTH then WordsBehind(id, a) == WordsBehind(other, b)
        else if |y| <= MAX_LENGTH then x[..MAX_LENGTH] == y || x[..MAX_LENGTH] == y + "-"
        else if |x| <= MAX_LENGTH then y[..MAX_LENGTH] == x || y[..MAX_LENGTH] == x + "-"
        else x[..MAX_LENGTH] == y[..MAX_LENGTH]
  {
    var x, y := Full(id, a), Full(other, b);
    FullForm(id, a);
    FullForm(other, b);
    SameFullIffSameWords(id, other, a, b);
    if |x| > MAX_LENGTH {
      SameCutIffSameFront(x, y, '-', MAX_LENGTH);
    } else if |y| > MAX_LENGTH {
      SameCutIffSameFront(y, x, '-', MAX_LENGTH);
    }
  }
}
