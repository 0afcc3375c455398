/** The words of a text, lowercased, and the text that joins them with a single
    separator: what metadata keys and group slugs are normalised to. */
module Words {
  import opened Strings

  // ------------------------------------------------------------- the words

  predicate IsAlphanumeric(c: char) {
    'a' <= c <= 'z' || 'A' <= c <= 'Z' || '0' <= c <= '9'
  }

  function Lowercase(c: char): char {
    if 'A' <= c <= 'Z' then (c as int - 'A' as int + 'a' as int) as char else c
  }

  function LowercaseAll(s: string): string {
    seq(|s|, i requires 0 <= i < |s| => Lowercase(s[i]))
  }

  predicate IsWordCharacter(c: char) {
    'a' <= c <= 'z' || '0' <= c <= '9'
  }

  predicate IsWord(w: string) {
    w != [] && forall i :: 0 <= i < |w| ==> IsWordCharacter(w[i])
  }

  predicate AreWords(words: seq<string>) {
    forall i :: 0 <= i < |words| ==> IsWord(words[i])
  }

  predicate EndsInWord(s: string) {
    s != [] && IsAlphanumeric(s[|s| - 1])
  }

  /** The maximal runs of ASCII letters and digits, lowercased. */
  function WordsOf(s: string): (words: seq<string>)
    ensures EndsInWord(s) ==> words != []
  {
    if s == [] then []
    else
      var front, c := s[..|s| - 1], s[|s| - 1];
      var earlier := WordsOf(front);
      if !IsAlphanumeric(c) then earlier
      else if EndsInWord(front) then earlier[..|earlier| - 1] + [earlier[|earlier| - 1] + [Lowercase(c)]]
      else earlier + [[Lowercase(c)]]
  }

  function Normalized(s: string, separator: char): string {
    Join(WordsOf(s), [separator])
  }

  lemma {:induction false} WordsAreWords(s: string)
    ensures AreWords(WordsOf(s))
  {
    if s != [] {
      WordsAreWords(s[..|s| - 1]);
    }
  }

  // ------------------------------------------------------------ spellings

  /** A word as it may be spelt, after a gap. */
  datatype Part = Part(gap: string, word: string)

  predicate IsGap(s: string) {
    forall i :: 0 <= i < |s| ==> !IsAlphanumeric(s[i])
  }

  predicate IsSpeltWord(s: string) {
    s != [] && forall i :: 0 <= i < |s| ==> IsAlphanumeric(s[i])
  }

  /** Words apart: only the first may have nothing before it. */
  predicate ArePartsOfText(parts: seq<Part>) {
    forall i :: 0 <= i < |parts| ==>
      IsGap(parts[i].gap) && IsSpeltWord(parts[i].word) && (i > 0 ==> parts[i].gap != [])
  }

  function Weave(parts: seq<Part>): string {
    if parts == [] then [] else Weave(parts[..|parts| - 1]) + parts[|parts| - 1].gap + parts[|parts| - 1].word
  }

  function LowercaseWords(parts: seq<Part>): seq<string> {
    seq(|parts|, i requires 0 <= i < |parts| => LowercaseAll(parts[i].word))
  }

  lemma {:induction false} GapAddsNothing(s: string, gap: string)
    requires IsGap(gap)
    ensures WordsOf(s + gap) == WordsOf(s)
  {
    if gap == [] {
      assert s + gap == s;
    } else {
      var n := |gap| - 1;
      assert (s + gap)[..|s| + n] == s + gap[..n];
      GapAddsNothing(s, gap[..n]);
    }
  }

  lemma LowercaseMore(word: string, c: char)
    ensures LowercaseAll(word + [c]) == LowercaseAll(word) + [Lowercase(c)]
  {
  }

  lemma WordsAfterCharacter(front: string, c: char)
    requires IsAlphanumeric(c)
    ensures var words := WordsOf(front);
      WordsOf(front + [c])
      == if EndsInWord(front) then words[..|words| - 1] + [words[|words| - 1] + [Lowercase(c)]] else words + [[Lowercase(c)]]
  {
    assert (front + [c])[..|front|] == front;
  }

  lemma {:induction false} WordIsAdded(s: string, word: string)
    requires !EndsInWord(s) && IsSpeltWord(word)
    ensures WordsOf(s + word) == WordsOf(s) + [LowercaseAll(word)]
  {
    var front, c := word[..|word| - 1], word[|word| - 1];
    assert word == front + [c];
    assert s + (front + [c]) == s + front + [c];
    LowercaseMore(front, c);
    WordsAfterCharacter(s + front, c);
    if front == [] {
      assert s + front == s && LowercaseAll(word) == [Lowercase(c)];
    } else {
      WordIsAdded(s, front);
      assert EndsInWord(s + front);
    }
  }

  /** The words of a text depend neither on their case nor on what separates and
      surrounds them. */
  lemma {:induction false} WordsOfWeave(parts: seq<Part>, tail: string)
    requires ArePartsOfText(parts) && IsGap(tail)
    ensures WordsOf(Weave(parts) + tail) == LowercaseWords(parts)
  {
    GapAddsNothing(Weave(parts), tail);
    if parts != [] {
      var n := |parts| - 1;
      var front, last := Weave(parts[..n]), parts[n];
      WordsOfWeave(parts[..n], []);
      assert front + [] == front;
      GapAddsNothing(front, last.gap);
      WordIsAdded(front + last.gap, last.word);
      assert LowercaseWords(parts) == LowercaseWords(parts[..n]) + [LowercaseAll(last.word)];
    }
  }

  // -------------------------------------------------------- the joined form

  lemma {:induction false} JoinMore(words: seq<string>, word: string, between: string)
    requires words != []
    ensures Join(words + [word], between) == Join(words, between) + between + word
  {
    if |words| == 1 {
      assert words + [word] == [words[0], word];
    } else {
      var first, rest := words[0], words[1..];
      assert words + [word] == [first] + (rest + [word]) && words == [first] + rest;
      JoinMore(rest, word, between);
      JoinCons(first, rest + [word], between);
      JoinCons(first, rest, between);
      assert first + between + (Join(rest, between) + between + word) == first + between + Join(rest, between) + between + word;
    }
  }

  lemma JoinGrows(words: seq<string>, word: string, c: char, between: string)
    ensures Join(words + [word + [c]], between) == Join(words + [word], between) + [c]
  {
    if words != [] {
      JoinMore(words, word + [c], between);
      JoinMore(words, word, between);
    }
  }

  /** The words of a joined text are the words it was joined from. */
  lemma {:induction false} WordsOfJoin(words: seq<string>, separator: char)
    requires AreWords(words) && !IsAlphanumeric(separator)
    ensures WordsOf(Join(words, [separator])) == words
  {
    if words != [] {
      var n := |words| - 1;
      var front, last := words[..n], words[n];
      assert words == front + [last];
      assert LowercaseAll(last) == last;
      if n == 0 {
        assert [] + last == last;
        WordIsAdded([], last);
      } else {
        var text := Join(front, [separator]);
        WordsOfJoin(front, separator);
        JoinMore(front, last, [separator]);
        GapAddsNothing(text, [separator]);
        WordIsAdded(text + [separator], last);
      }
    }
  }

  /** Two texts are normalised to the same iff they have the same words, and
      normalising again changes nothing. */
  lemma {:induction false} NormalizedIffSameWords(a: string, b: string, separator: char)
    requires !IsAlphanumeric(separator)
    ensures Normalized(a, separator) == Normalized(b, separator) <==> WordsOf(a) == WordsOf(b)
    ensures Normalized(Normalized(a, separator), separator) == Normalized(a, separator)
  {
    WordsAreWords(a);
    WordsAreWords(b);
    WordsOfJoin(WordsOf(a), separator);
    WordsOfJoin(WordsOf(b), separator);
  }

  // ------------------------------------------------------------ the loops

  /** What the loops push: every run of other characters becomes one separator. */
  function Collapsed(s: string, separator: char): string {
    if s == [] then []
    else
      var pushed, c := Collapsed(s[..|s| - 1], separator), s[|s| - 1];
      if IsAlphanumeric(c) then pushed + [Lowercase(c)]
      else if pushed != [] && pushed[|pushed| - 1] == separator then pushed
      else pushed + [separator]
  }

  function Edge(present: bool, separator: char): string {
    if present then [separator] else []
  }

  function Lead(s: string, separator: char): string {
    Edge(s != [] && !IsAlphanumeric(s[0]), separator)
  }

  function Trail(s: string, separator: char): string {
    Edge(WordsOf(s) != [] && !EndsInWord(s), separator)
  }

  /** One more character of a word: the words so far grow by it. */
  lemma NormalizedGrows(front: string, c: char, separator: char)
    requires IsAlphanumeric(c)
    ensures Normalized(front + [c], separator) == Normalized(front, separator) + Trail(front, separator) + [Lowercase(c)]
  {
    var earlier, s := WordsOf(front), front + [c];
    assert s[..|s| - 1] == front;
    if EndsInWord(front) {
      var n := |earlier| - 1;
      assert earlier == earlier[..n] + [earlier[n]];
      JoinGrows(earlier[..n], earlier[n], Lowercase(c), [separator]);
    } else if earlier != [] {
      JoinMore(earlier, [Lowercase(c)], [separator]);
    }
  }

  lemma LeadStays(front: string, c: char, separator: char)
    ensures Lead(front + [c], separator) ==
      if front == [] then Edge(!IsAlphanumeric(c), separator) else Lead(front, separator)
  {
  }

  /** The end of what was pushed is a separator iff a run of others is open. */
  lemma PushedEnd(s: string, separator: char)
    requires !IsAlphanumeric(separator)
    ensures var pushed := Lead(s, separator) + Normalized(s, separator) + Trail(s, separator);
      pushed != [] && pushed[|pushed| - 1] == separator <==> s != [] && !EndsInWord(s)
  {
    WordsAreWords(s);
    if WordsOf(s) != [] {
      LastOfJoin(WordsOf(s), [separator]);
    } else {
      NoWords(s);
    }
  }

  function Shape(s: string, separator: char): string {
    Lead(s, separator) + Normalized(s, separator) + Trail(s, separator)
  }

  lemma CollapsedStep(front: string, c: char, separator: char)
    ensures var pushed := Collapsed(front, separator);
      Collapsed(front + [c], separator)
      == if IsAlphanumeric(c) then pushed + [Lowercase(c)]
         else if pushed != [] && pushed[|pushed| - 1] == separator then pushed
         else pushed + [separator]
  {
    assert (front + [c])[..|front|] == front;
  }

  lemma ShapeAfterWordCharacter(front: string, c: char, separator: char)
    requires IsAlphanumeric(c)
    ensures Shape(front + [c], separator) == Shape(front, separator) + [Lowercase(c)]
  {
    NormalizedGrows(front, c, separator);
    LeadStays(front, c, separator);
  }

  lemma ShapeAfterGapCharacter(front: string, c: char, separator: char)
    requires !IsAlphanumeric(c) && !IsAlphanumeric(separator)
    ensures Shape(front + [c], separator) ==
      if front != [] && !EndsInWord(front) then Shape(front, separator) else Shape(front, separator) + [separator]
  {
    LeadStays(front, c, separator);
    GapAddsNothing(front, [c]);
    if WordsOf(front) == [] {
      NoWords(front);
    }
  }

  lemma {:induction false} CollapsedShape(s: string, separator: char)
    requires !IsAlphanumeric(separator)
    ensures Collapsed(s, separator) == Lead(s, separator) + Normalized(s, separator) + Trail(s, separator)
  {
    if s != [] {
      var front, c := s[..|s| - 1], s[|s| - 1];
      assert s == front + [c];
      CollapsedShape(front, separator);
      CollapsedStep(front, c, separator);
      if IsAlphanumeric(c) {
        ShapeAfterWordCharacter(front, c, separator);
      } else {
        PushedEnd(front, separator);
        ShapeAfterGapCharacter(front, c, separator);
      }
    }
  }

  lemma {:induction false} NoWords(s: string)
    requires WordsOf(s) == []
    ensures IsGap(s)
  {
    if s != [] {
      NoWords(s[..|s| - 1]);
    }
  }

  lemma LastOfJoin(words: seq<string>, between: string)
    requires AreWords(words) && words != []
    ensures var text := Join(words, between); text != [] && IsWordCharacter(text[|text| - 1])
  {
    var n := |words| - 1;
    assert IsWord(words[n]);
    if n > 0 {
      assert words == words[..n] + [words[n]];
      JoinMore(words[..n], words[n], between);
    }
  }

  lemma FirstOfJoin(words: seq<string>, between: string)
    requires AreWords(words) && words != []
    ensures var text := Join(words, between); text != [] && IsWordCharacter(text[0])
  {
    assert IsWord(words[0]);
  }

  /** Trimming what the loops push leaves the words, joined. */
  lemma TrimmedIsNormalized(s: string, separator: char)
    requires !IsAlphanumeric(separator)
    ensures Trim(Collapsed(s, separator), Is(separator)) == Normalized(s, separator)
  {
    var words := WordsOf(s);
    CollapsedShape(s, separator);
    WordsAreWords(s);
    if words != [] {
      FirstOfJoin(words, [separator]);
      LastOfJoin(words, [separator]);
    }
    TrimAround(Lead(s, separator), Normalized(s, separator), Trail(s, separator), Is(separator));
  }

  // ----------------------------------------------------------- the grammar

  /** Word characters and separators, no separator beside another. */
  predicate IsCollapsed(s: string, separator: char) {
    && (forall i :: 0 <= i < |s| ==> IsWordCharacter(s[i]) || s[i] == separator)
    && (forall i :: 0 < i < |s| ==> !(s[i - 1] == separator && s[i] == separator))
  }

  /** And none at an end. */
  predicate IsNormal(s: string, separator: char) {
    IsCollapsed(s, separator) && (s != [] ==> s[0] != separator && s[|s| - 1] != separator)
  }

  lemma {:induction false} CollapsedStays(s: string, separator: char)
    requires IsCollapsed(s, separator) && !IsAlphanumeric(separator)
    ensures Collapsed(s, separator) == s
  {
    if s != [] {
      var n := |s| - 1;
      assert s == s[..n] + [s[n]];
      CollapsedStays(s[..n], separator);
      CollapsedStep(s[..n], s[n], separator);
      assert IsWordCharacter(s[n]) ==> Lowercase(s[n]) == s[n];
      assert n > 0 ==> !(s[n - 1] == separator && s[n] == separator);
    }
  }

  lemma {:induction false} CollapsedIsCollapsed(s: string, separator: char)
    requires !IsAlphanumeric(separator)
    ensures IsCollapsed(Collapsed(s, separator), separator)
  {
    if s != [] {
      CollapsedIsCollapsed(s[..|s| - 1], separator);
    }
  }

  /** A text is in normal form iff it is what normalising gives. */
  lemma NormalIffNormalized(s: string, separator: char)
    requires !IsAlphanumeric(separator)
    ensures IsNormal(s, separator) <==> Normalized(s, separator) == s
    ensures IsNormal(Normalized(s, separator), separator)
  {
    NormalizedIsNormal(s, separator);
    if IsNormal(s, separator) {
      CollapsedStays(s, separator);
      TrimmedIsNormalized(s, separator);
      assert [] + s + [] == s;
      TrimAround([], s, [], Is(separator));
    }
  }

  lemma NormalizedIsNormal(s: string, separator: char)
    requires !IsAlphanumeric(separator)
    ensures IsNormal(Normalized(s, separator), separator)
  {
    CollapsedIsCollapsed(s, separator);
    CollapsedShape(s, separator);
    MiddleIsCollapsed(Lead(s, separator), Normalized(s, separator), Trail(s, separator), separator);
    WordsAreWords(s);
    if WordsOf(s) != [] {
      FirstOfJoin(WordsOf(s), [separator]);
      LastOfJoin(WordsOf(s), [separator]);
    }
  }

  lemma MiddleIsCollapsed(front: string, s: string, back: string, separator: char)
    requires IsCollapsed(front + s + back, separator)
    ensures IsCollapsed(s, separator)
  {
    assert forall i :: 0 <= i < |s| ==> s[i] == (front + s + back)[|front| + i];
  }

  // ---------------------------------------------------------- the alphabet

  /** Lowercasing by the alphabet, and what a letter or digit is. */
  lemma ByTheAlphabet(c: char, k: nat)
    ensures k < 26 ==> Lowercase(UPPER[k]) == LOWER[k] && Lowercase(LOWER[k]) == LOWER[k]
    ensures c !in UPPER ==> Lowercase(c) == c
    ensures IsAlphanumeric(c) <==> c in UPPER || c in LOWER || c in DIGITS
    ensures IsWordCharacter(c) <==> c in LOWER || c in DIGITS
  {
    InUpper(c);
    InLower(c);
    InDigits(c);
    if k < 26 {
      UpperInOrder(k);
      LowerInOrder(k);
    }
  }

  /** The same letter of the alphabet in either case, or the same character. */
  predicate SameLetter(a: char, b: char) {
    a == b || exists k :: 0 <= k < 26 && a in [UPPER[k], LOWER[k]] && b in [UPPER[k], LOWER[k]]
  }

  predicate SameButCase(a: string, b: string) {
    |a| == |b| && forall i :: 0 <= i < |a| ==> SameLetter(a[i], b[i])
  }

  lemma SameLetterLowercased(a: char, b: char)
    requires SameLetter(a, b)
    ensures Lowercase(a) == Lowercase(b) && (IsAlphanumeric(a) <==> IsAlphanumeric(b))
  {
    if a != b {
      var k :| 0 <= k < 26 && a in [UPPER[k], LOWER[k]] && b in [UPPER[k], LOWER[k]];
      ByTheAlphabet(a, k);
      ByTheAlphabet(b, k);
    }
  }

  /** Texts that differ in the case of any of their letters have the same words. */
  lemma {:induction false} CaseDoesNotMatter(a: string, b: string)
    requires SameButCase(a, b)
    ensures WordsOf(a) == WordsOf(b) && (EndsInWord(a) <==> EndsInWord(b))
  {
    if a != [] {
      var n := |a| - 1;
      SameLetterLowercased(a[n], b[n]);
      CaseDoesNotMatter(a[..n], b[..n]);
    }
  }
}
