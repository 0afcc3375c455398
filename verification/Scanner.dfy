/** The source scanner of the contract check: it skips strings and templates,
    matches brackets and splits call arguments at their top-level commas. */
module Scanner {
  import opened Strings
  import opened Wrappers

  // ---------------------------------------------------------------- tokens

  predicate IsQuote(c: char) {
    c == '\'' || c == '"' || c == '`'
  }

  /** How far it is to just after the quote that closes a string whose inside
      begins here; a backslash takes the next character with it. */
  function Inside(s: string, quote: char): (r: Option<nat>)
    ensures r.Some? ==> 1 <= r.value <= |s|
  {
    if s == [] then None
    else if s[0] == '\\' then
      if |s| == 1 || Inside(s[2..], quote).None? then None else Some(2 + Inside(s[2..], quote).value)
    else if s[0] == quote then Some(1)
    else if Inside(s[1..], quote).None? then None
    else Some(1 + Inside(s[1..], quote).value)
  }

  /** The first token is a character of the code or a string that is closed. */
  predicate TokenCloses(s: string)
    requires s != []
  {
    IsQuote(s[0]) ==> Inside(s[1..], s[0]).Some?
  }

  /** A string that is not closed reaches to the end. */
  function TokenLength(s: string): (n: nat)
    requires s != []
    ensures 1 <= n <= |s|
  {
    if !IsQuote(s[0]) then 1
    else if Inside(s[1..], s[0]).None? then |s|
    else 1 + Inside(s[1..], s[0]).value
  }

  /** Where a string ends whose inside is read from `index` on. */
  function SkipEnd(source: string, index: nat, quote: char): nat
    requires index <= |source|
  {
    var inside := Inside(source[index..], quote);
    if inside.None? then |source| else index + inside.value
  }

  lemma SkipStep(source: string, index: nat, quote: char)
    requires index < |source|
    ensures SkipEnd(source, index, quote) ==
      if source[index] == '\\' then (if index + 2 > |source| then |source| else SkipEnd(source, index + 2, quote))
      else if source[index] == quote then index + 1
      else SkipEnd(source, index + 1, quote)
  {
    var ahead := source[index..];
    assert ahead[1..] == source[index + 1..];
    assert |ahead| > 1 ==> ahead[2..] == source[index + 2..];
  }

  method SkipQuoted(source: string, start: nat, quote: char) returns (end: nat)
    requires start < |source|
    ensures end == SkipEnd(source, start + 1, quote)
  {
    var index := start + 1;
    while index < |source|
      invariant index <= |source| ==> SkipEnd(source, start + 1, quote) == SkipEnd(source, index, quote)
      invariant index > |source| ==> SkipEnd(source, start + 1, quote) == |source|
    {
      SkipStep(source, index, quote);
      if source[index] == '\\' {
        index := index + 2;
        continue;
      }
      if source[index] == quote {
        return index + 1;
      }
      index := index + 1;
    }
    return |source|;
  }

  method SkipTemplate(source: string, start: nat) returns (end: nat)
    requires start < |source|
    ensures end == SkipEnd(source, start + 1, '`')
  {
    var index := start + 1;
    while index < |source|
      invariant index <= |source| ==> SkipEnd(source, start + 1, '`') == SkipEnd(source, index, '`')
      invariant index > |source| ==> SkipEnd(source, start + 1, '`') == |source|
    {
      SkipStep(source, index, '`');
      if source[index] == '\\' {
        index := index + 2;
        continue;
      }
      if source[index] == '`' {
        return index + 1;
      }
      index := index + 1;
    }
    return |source|;
  }

  /** The two ways to write the end of a string that begins at `index`. */
  lemma SkipIsToken(source: string, index: nat)
    requires index < |source| && IsQuote(source[index])
    ensures SkipEnd(source, index + 1, source[index]) == index + TokenLength(source[index..])
  {
    assert source[index..][1..] == source[index + 1..];
  }

  // ---------------------------------------------------------- bracket depth

  datatype Depths = Depths(paren: int, brace: int, bracket: int)

  const TOP := Depths(0, 0, 0)

  function Shift(d: Depths, c: char): Depths {
    if c == '(' then d.(paren := d.paren + 1)
    else if c == ')' then d.(paren := d.paren - 1)
    else if c == '{' then d.(brace := d.brace + 1)
    else if c == '}' then d.(brace := d.brace - 1)
    else if c == '[' then d.(bracket := d.bracket + 1)
    else if c == ']' then d.(bracket := d.bracket - 1)
    else d
  }

  /** The depths after a text that has no top-level comma and leaves no string
      open. */
  function After(s: string, d: Depths): Option<Depths>
    decreases |s|
  {
    if s == [] then Some(d)
    else if (s[0] == ',' && d == TOP) || !TokenCloses(s) then None
    else After(s[TokenLength(s)..], Shift(d, s[0]))
  }

  /** The text of one argument, complete in itself. */
  predicate SelfClosed(s: string) {
    After(s, TOP) == Some(TOP)
  }

  predicate CommaFree(s: string, d: Depths)
    decreases |s|
  {
    s == [] || (!(s[0] == ',' && d == TOP) && CommaFree(s[TokenLength(s)..], Shift(d, s[0])))
  }

  // -------------------------------------------------------------- splitting

  function Absorb(front: string, pieces: seq<string>): (r: seq<string>)
    requires pieces != []
    ensures |r| == |pieces|
  {
    [front + pieces[0]] + pieces[1..]
  }

  /** The text between the top-level commas. */
  function Pieces(s: string, d: Depths): (pieces: seq<string>)
    ensures pieces != []
    decreases |s|
  {
    if s == [] then [[]]
    else if s[0] == ',' && d == TOP then [[]] + Pieces(s[1..], d)
    else Absorb(s[..TokenLength(s)], Pieces(s[TokenLength(s)..], Shift(d, s[0])))
  }

  /** White space and line ends of ECMAScript. */
  predicate IsWhite(c: char) {
    var n := c as int;
    || 0x09 <= n <= 0x0D || n == 0x20 || n == 0xA0 || n == 0x1680 || 0x2000 <= n <= 0x200A
    || n == 0x2028 || n == 0x2029 || n == 0x202F || n == 0x205F || n == 0x3000 || n == 0xFEFF
  }

  /** WhiteSpace and LineTerminator of ECMA-262, sections 12.2 and 12.3, by their
      code points. */
  const WHITE_SPACE: seq<int> := [
    0x09, 0x0A, 0x0B, 0x0C, 0x0D, 0x20, 0xA0, 0x1680, 0x2000, 0x2001, 0x2002, 0x2003, 0x2004, 0x2005, 0x2006,
    0x2007, 0x2008, 0x2009, 0x200A, 0x2028, 0x2029, 0x202F, 0x205F, 0x3000, 0xFEFF ]

  lemma WhiteByCodePoint(c: char)
    ensures IsWhite(c) <==> c as int in WHITE_SPACE
  {
    var n := c as int;
    assert 0x09 <= n <= 0x0D ==> WHITE_SPACE[n - 0x09] == n;
    assert 0x2000 <= n <= 0x200A ==> WHITE_SPACE[8 + n - 0x2000] == n;
  }

  function Trimmed(pieces: seq<string>): (r: seq<string>)
    ensures |r| == |pieces|
    ensures forall i :: 0 <= i < |r| ==> r[i] == Trim(pieces[i], IsWhite)
  {
    seq(|pieces|, i requires 0 <= i < |pieces| => Trim(pieces[i], IsWhite))
  }

  /** All pieces trimmed, without a last one that is blank. */
  function Args(pieces: seq<string>): seq<string>
    requires pieces != []
  {
    var all := Trimmed(pieces);
    if all[|all| - 1] == [] then all[..|all| - 1] else all
  }

  lemma AbsorbTwice(a: string, b: string, pieces: seq<string>)
    requires pieces != []
    ensures Absorb(a, Absorb(b, pieces)) == Absorb(a + b, pieces)
  {
    assert a + (b + pieces[0]) == a + b + pieces[0];
  }

  /** One round of the scan that does not meet a top-level comma. */
  lemma PiecesStep(source: string, start: nat, index: nat, d: Depths)
    requires start <= index < |source| && !(source[index] == ',' && d == TOP)
    ensures var next := index + TokenLength(source[index..]);
      Absorb(source[start..index], Pieces(source[index..], d))
      == Absorb(source[start..next], Pieces(source[next..], Shift(d, source[index])))
  {
    var ahead := source[index..];
    var n := TokenLength(ahead);
    assert ahead[n..] == source[index + n..];
    assert source[start..index] + ahead[..n] == source[start..index + n];
    AbsorbTwice(source[start..index], ahead[..n], Pieces(ahead[n..], Shift(d, ahead[0])));
  }

  /** One that does. */
  lemma PiecesComma(source: string, start: nat, index: nat)
    requires start <= index < |source| && source[index] == ','
    ensures Absorb(source[start..index], Pieces(source[index..], TOP))
         == [source[start..index]] + Absorb(source[index + 1..index + 1], Pieces(source[index + 1..], TOP))
  {
    var rest := Pieces(source[index + 1..], TOP);
    assert source[index..][1..] == source[index + 1..];
    assert source[start..index] + [] == source[start..index];
    assert source[index + 1..index + 1] + rest[0] == rest[0];
  }

  /** Where the scan stands: the pieces already cut off, and those that the rest
      will still give, the first of which has begun. */
  ghost predicate Stands(source: string, done: seq<string>, start: nat, index: nat, d: Depths) {
    && start <= index <= |source|
    && Pieces(source, TOP) == done + Absorb(source[start..index], Pieces(source[index..], d))
  }

  lemma StandsAtStart(source: string)
    ensures Stands(source, [], 0, 0, TOP)
  {
    assert source[0..] == source;
    assert source[0..0] + Pieces(source, TOP)[0] == Pieces(source, TOP)[0];
  }

  lemma StandsAfterToken(source: string, done: seq<string>, start: nat, index: nat, d: Depths)
    requires Stands(source, done, start, index, d) && index < |source| && !(source[index] == ',' && d == TOP)
    ensures Stands(source, done, start, index + TokenLength(source[index..]), Shift(d, source[index]))
  {
    PiecesStep(source, start, index, d);
  }

  lemma StandsAfterComma(source: string, done: seq<string>, start: nat, index: nat)
    requires Stands(source, done, start, index, TOP) && index < |source| && source[index] == ','
    ensures Stands(source, done + [source[start..index]], index + 1, index + 1, TOP)
  {
    PiecesComma(source, start, index);
    var rest := Absorb(source[index + 1..index + 1], Pieces(source[index + 1..], TOP));
    assert done + ([source[start..index]] + rest) == (done + [source[start..index]]) + rest;
  }

  lemma StandsAtEnd(source: string, done: seq<string>, start: nat, d: Depths)
    requires Stands(source, done, start, |source|, d)
    ensures Pieces(source, TOP) == done + [source[start..]]
  {
    assert source[|source|..] == [] && source[start..|source|] == source[start..];
    AbsorbNothing(source[start..]);
  }

  lemma AbsorbNothing(piece: string)
    ensures Absorb(piece, [[]]) == [piece]
  {
    assert piece + [] == piece;
  }

  lemma ArgsOf(done: seq<string>, last: string)
    ensures Args(done + [last]) == if Trim(last, IsWhite) == [] then Trimmed(done) else Trimmed(done) + [Trim(last, IsWhite)]
  {
    TrimmedMore(done, last);
  }

  lemma TrimmedMore(done: seq<string>, piece: string)
    ensures Trimmed(done + [piece]) == Trimmed(done) + [Trim(piece, IsWhite)]
  {
  }

  method SplitTopLevelArgs(source: string) returns (args: seq<string>)
    ensures args == Args(Pieces(source, TOP))
  {
    hide Stands;
    args := [];
    var start, parenDepth, braceDepth, bracketDepth, index := 0, 0, 0, 0, 0;
    ghost var done: seq<string> := [];
    StandsAtStart(source);
    while index < |source|
      invariant 0 <= start <= index <= |source|
      invariant args == Trimmed(done)
      invariant Stands(source, done, start, index, Depths(parenDepth, braceDepth, bracketDepth))
    {
      var character := source[index];
      ghost var d := Depths(parenDepth, braceDepth, bracketDepth);
      if !(character == ',' && d == TOP) {
        StandsAfterToken(source, done, start, index, d);
      }
      if character == '\'' || character == '"' {
        SkipIsToken(source, index);
        index := SkipQuoted(source, index, character);
        continue;
      }
      if character == '`' {
        SkipIsToken(source, index);
        index := SkipTemplate(source, index);
        continue;
      }
      if character == '(' {
        parenDepth := parenDepth + 1;
      } else if character == ')' {
        parenDepth := parenDepth - 1;
      } else if character == '{' {
        braceDepth := braceDepth + 1;
      } else if character == '}' {
        braceDepth := braceDepth - 1;
      } else if character == '[' {
        bracketDepth := bracketDepth + 1;
      } else if character == ']' {
        bracketDepth := bracketDepth - 1;
      } else if character == ',' && parenDepth == 0 && braceDepth == 0 && bracketDepth == 0 {
        StandsAfterComma(source, done, start, index);
        TrimmedMore(done, source[start..index]);
        args := args + [Trim(source[start..index], IsWhite)];
        done := done + [source[start..index]];
        start := index + 1;
      }
      index := index + 1;
    }
    StandsAtEnd(source, done, start, Depths(parenDepth, braceDepth, bracketDepth));
    ArgsOf(done, source[start..]);
    var tail := Trim(source[start..], IsWhite);
    if tail != [] {
      args := args + [tail];
    }
  }

  // ------------------------------------------------ splitting and joining

  /** A token stays the same whatever follows, if it is closed. */
  lemma {:induction false} InsideAppend(s: string, t: string, quote: char)
    requires Inside(s, quote).Some?
    ensures Inside(s + t, quote) == Inside(s, quote)
  {
    assert (s + t)[1..] == s[1..] + t;
    if s[0] == '\\' {
      assert (s + t)[2..] == s[2..] + t;
      InsideAppend(s[2..], t, quote);
    } else if s[0] != quote {
      InsideAppend(s[1..], t, quote);
    }
  }

  lemma TokenAppend(s: string, t: string)
    requires s != [] && TokenCloses(s)
    ensures TokenCloses(s + t) && TokenLength(s + t) == TokenLength(s)
    ensures (s + t)[TokenLength(s)..] == s[TokenLength(s)..] + t
  {
    assert (s + t)[1..] == s[1..] + t;
    if IsQuote(s[0]) {
      InsideAppend(s[1..], t, s[0]);
    }
  }

  lemma {:induction false} AfterAppend(a: string, b: string, d: Depths)
    requires After(a, d).Some?
    ensures After(a + b, d) == After(b, After(a, d).value)
    decreases |a|
  {
    if a == [] {
      assert a + b == b;
    } else {
      TokenAppend(a, b);
      AfterAppend(a[TokenLength(a)..], b, Shift(d, a[0]));
    }
  }

  /** Text without top-level commas in front of anything extends its first piece. */
  lemma {:induction false} PiecesAppend(a: string, b: string, d: Depths)
    requires After(a, d).Some?
    ensures Pieces(a + b, d) == Absorb(a, Pieces(b, After(a, d).value))
    decreases |a|
  {
    if a == [] {
      assert a + b == b;
      assert [] + Pieces(b, d)[0] == Pieces(b, d)[0];
    } else {
      var n, last := TokenLength(a), Pieces(b, After(a, d).value);
      TokenAppend(a, b);
      PiecesAppend(a[n..], b, Shift(d, a[0]));
      assert (a + b)[0] == a[0] && (a + b)[..n] == a[..n] && a[..n] + a[n..] == a;
      AbsorbTwice(a[..n], a[n..], last);
    }
  }

  lemma {:induction false} PiecesOfCommaFree(s: string, d: Depths)
    requires CommaFree(s, d)
    ensures Pieces(s, d) == [s]
    decreases |s|
  {
    if s != [] {
      var n := TokenLength(s);
      PiecesOfCommaFree(s[n..], Shift(d, s[0]));
      assert s[..n] + s[n..] == s;
    }
  }

  lemma {:induction false} JoinOfPieces(s: string, d: Depths)
    ensures Join(Pieces(s, d), ",") == s
    decreases |s|
  {
    if s != [] {
      if s[0] == ',' && d == TOP {
        JoinOfPieces(s[1..], d);
        JoinCons([], Pieces(s[1..], d), ",");
        Whole([] + ",", s, 1);
      } else {
        var n := TokenLength(s);
        JoinOfPieces(s[n..], Shift(d, s[0]));
        JoinAbsorb(s[..n], Pieces(s[n..], Shift(d, s[0])));
        Whole(s[..n], s, n);
      }
    }
  }

  lemma Whole(front: string, s: string, n: nat)
    requires n <= |s| && front == s[..n]
    ensures front + s[n..] == s
  {
  }

  lemma JoinAbsorb(front: string, pieces: seq<string>)
    requires pieces != []
    ensures Join(Absorb(front, pieces), ",") == front + Join(pieces, ",")
  {
    if |pieces| > 1 {
      assert Absorb(front, pieces)[1..] == pieces[1..];
      assert front + (pieces[0] + "," + Join(pieces[1..], ",")) == (front + pieces[0]) + "," + Join(pieces[1..], ",");
    }
  }

  /** Every piece but the last closes what it opens, and the last has no top-level
      comma; the first piece is read from the given depths. */
  predicate AreArguments(pieces: seq<string>, d: Depths)
    requires pieces != []
  {
    if |pieces| == 1 then CommaFree(pieces[0], d)
    else After(pieces[0], d) == Some(TOP) && AreArguments(pieces[1..], TOP)
  }

  lemma {:induction false} PiecesAreArguments(s: string, d: Depths)
    ensures AreArguments(Pieces(s, d), d)
    decreases |s|
  {
    if s == [] {
    } else if s[0] == ',' && d == TOP {
      PiecesAreArguments(s[1..], TOP);
      assert ([[]] + Pieces(s[1..], d))[1..] == Pieces(s[1..], d);
    } else {
      var n, e := TokenLength(s), Shift(d, s[0]);
      var rest := Pieces(s[n..], e);
      PiecesAreArguments(s[n..], e);
      assert Absorb(s[..n], rest)[1..] == rest[1..];
      TokenFront(s, rest[0], d);
    }
  }

  /** A token in front of text: what it does to the depths it does first. */
  lemma TokenFront(s: string, text: string, d: Depths)
    requires s != [] && !(s[0] == ',' && d == TOP)
    requires !TokenCloses(s) ==> text == []
    ensures TokenCloses(s) ==> After(s[..TokenLength(s)] + text, d) == After(text, Shift(d, s[0]))
    ensures CommaFree(text, Shift(d, s[0])) ==> CommaFree(s[..TokenLength(s)] + text, d)
  {
    var token := s[..TokenLength(s)];
    if TokenCloses(s) {
      TokenAlone(s);
      TokenAppend(token, text);
      assert (token + text)[|token|..] == text;
    } else {
      assert token + text == s;
      assert s[|s|..] == [];
    }
  }

  lemma TokenAlone(s: string)
    requires s != [] && TokenCloses(s)
    ensures var token := s[..TokenLength(s)]; TokenCloses(token) && TokenLength(token) == |token|
  {
    if IsQuote(s[0]) {
      InsideAlone(s[1..], s[0]);
      assert s[..TokenLength(s)][1..] == s[1..][..TokenLength(s) - 1];
    }
  }

  lemma {:induction false} InsideAlone(s: string, quote: char)
    requires Inside(s, quote).Some?
    ensures Inside(s[..Inside(s, quote).value], quote) == Inside(s, quote)
  {
    var n := Inside(s, quote).value;
    if s[0] == '\\' {
      InsideAlone(s[2..], quote);
      assert s[..n][2..] == s[2..][..n - 2];
    } else if s[0] != quote {
      InsideAlone(s[1..], quote);
      assert s[..n][1..] == s[1..][..n - 1];
    }
  }

  lemma CutAtComma(a: string, rest: string, d: Depths)
    requires After(a, d) == Some(TOP)
    ensures Pieces(a + "," + rest, d) == [a] + Pieces(rest, TOP)
  {
    var tail := "," + rest;
    assert a + "," + rest == a + tail;
    assert tail[1..] == rest;
    PiecesAppend(a, tail, d);
    assert a + [] == a;
  }

  lemma {:induction false} ArgumentsArePieces(pieces: seq<string>, d: Depths)
    requires pieces != [] && AreArguments(pieces, d)
    ensures Pieces(Join(pieces, ","), d) == pieces
  {
    if |pieces| == 1 {
      PiecesOfCommaFree(pieces[0], d);
    } else {
      var first, rest := pieces[0], pieces[1..];
      ArgumentsArePieces(rest, TOP);
      CutAtComma(first, Join(rest, ","), d);
      assert [first] + rest == pieces;
    }
  }

  /** Splitting undoes joining for exactly the lists of arguments, and joining
      undoes splitting for every text. */
  lemma SplittingAndJoining(pieces: seq<string>, source: string)
    requires pieces != []
    ensures Pieces(Join(pieces, ","), TOP) == pieces <==> AreArguments(pieces, TOP)
    ensures Join(Pieces(source, TOP), ",") == source
  {
    PiecesAreArguments(Join(pieces, ","), TOP);
    if AreArguments(pieces, TOP) {
      ArgumentsArePieces(pieces, TOP);
    }
    JoinOfPieces(source, TOP);
  }

  // ------------------------------------------------------ lists of arguments

  /** An argument as it is written in a call, with white space around it. */
  datatype Padded = Padded(before: string, arg: string, after: string) {
    function Text(): string {
      before + arg + after
    }

    predicate Valid() {
      && (forall c :: c in before + after ==> IsWhite(c))
      && Trim(arg, IsWhite) == arg && SelfClosed(arg)
    }
  }

  function Texts(args: seq<Padded>): seq<string> {
    seq(|args|, i requires 0 <= i < |args| => args[i].Text())
  }

  function Values(args: seq<Padded>): seq<string> {
    seq(|args|, i requires 0 <= i < |args| => args[i].arg)
  }

  lemma TrimPadded(p: Padded)
    requires p.Valid()
    ensures Trim(p.Text(), IsWhite) == p.arg
  {
    if p.arg != [] {
      TrimmedEnds(p.arg, IsWhite);
    }
    TrimAround(p.before, p.arg, p.after, IsWhite);
  }

  lemma {:induction false} WhiteIsClosed(s: string)
    requires forall c :: c in s ==> IsWhite(c)
    ensures SelfClosed(s)
  {
    if s != [] {
      assert s[0] in s;
      WhiteIsClosed(s[1..]);
    }
  }

  lemma PaddedIsClosed(p: Padded)
    requires p.Valid()
    ensures SelfClosed(p.Text())
  {
    WhiteIsClosed(p.before);
    WhiteIsClosed(p.after);
    AfterAppend(p.before, p.arg, TOP);
    AfterAppend(p.before + p.arg, p.after, TOP);
  }

  lemma {:induction false} ClosedIsCommaFree(s: string, d: Depths)
    requires After(s, d).Some?
    ensures CommaFree(s, d)
    decreases |s|
  {
    if s != [] {
      ClosedIsCommaFree(s[TokenLength(s)..], Shift(d, s[0]));
    }
  }

  lemma {:induction false} ClosedAreArguments(pieces: seq<string>)
    requires pieces != [] && forall i :: 0 <= i < |pieces| ==> SelfClosed(pieces[i])
    ensures AreArguments(pieces, TOP)
  {
    if |pieces| == 1 {
      ClosedIsCommaFree(pieces[0], TOP);
    } else {
      ClosedAreArguments(pieces[1..]);
    }
  }

  lemma TextsArePieces(args: seq<Padded>)
    requires args != [] && forall i :: 0 <= i < |args| ==> args[i].Valid()
    ensures Pieces(Join(Texts(args), ","), TOP) == Texts(args)
  {
    forall i | 0 <= i < |args|
      ensures SelfClosed(Texts(args)[i])
    {
      PaddedIsClosed(args[i]);
    }
    ClosedAreArguments(Texts(args));
    ArgumentsArePieces(Texts(args), TOP);
  }

  lemma TextsAreTrimmed(args: seq<Padded>)
    requires forall i :: 0 <= i < |args| ==> args[i].Valid()
    ensures Trimmed(Texts(args)) == Values(args)
  {
    forall i | 0 <= i < |args|
      ensures Trim(Texts(args)[i], IsWhite) == args[i].arg
    {
      TrimPadded(args[i]);
    }
  }

  /** Splitting a list of trimmed, self-closed arguments, written with any white
      space around them, gives the list; only a blank last argument, such as a
      trailing comma leaves, is dropped. */
  lemma SplitUndoesJoin(args: seq<Padded>)
    requires forall i :: 0 <= i < |args| ==> args[i].Valid()
    ensures var source, values := Join(Texts(args), ","), Values(args);
      Args(Pieces(source, TOP))
      == if values != [] && values[|values| - 1] == "" then values[..|values| - 1] else values
  {
    if args != [] {
      TextsArePieces(args);
      TextsAreTrimmed(args);
    }
  }

  // ------------------------------------------------------- nested source text

  datatype Bracket = Paren | Brace | Square {
    function Open(): char {
      if Paren? then '(' else if Brace? then '{' else '['
    }

    function Close(): char {
      if Paren? then ')' else if Brace? then '}' else ']'
    }
  }

  datatype Mark = Plain(c: char) | Escaped(c: char)

  /** Source text by its nesting: strings in three kinds of quotes, groups in three
      kinds of brackets. */
  datatype Code =
    | End
    | Char(c: char, rest: Code)
    | Str(quote: char, body: seq<Mark>, rest: Code)
    | Group(bracket: Bracket, inner: Code, rest: Code)

  predicate WellFormed(code: Code) {
    match code
    case End => true
    case Char(c, rest) => c !in "'\"`(){}[]" && WellFormed(rest)
    case Str(quote, body, rest) => quote in "'\"`" && AreMarks(body, quote) && WellFormed(rest)
    case Group(_, inner, rest) => WellFormed(inner) && WellFormed(rest)
  }

  predicate AreMarks(body: seq<Mark>, quote: char) {
    forall m :: m in body && m.Plain? ==> m.c != quote && m.c != '\\'
  }

  predicate NoTopComma(code: Code) {
    match code
    case End => true
    case Char(c, rest) => c != ',' && NoTopComma(rest)
    case Str(_, _, rest) => NoTopComma(rest)
    case Group(_, _, rest) => NoTopComma(rest)
  }

  function PrintMark(m: Mark): string {
    if m.Plain? then [m.c] else ['\\', m.c]
  }

  function PrintString(quote: char, body: seq<Mark>): string {
    [quote] + FlatMap(body, PrintMark) + [quote]
  }

  function Print(code: Code): string {
    match code
    case End => []
    case Char(c, rest) => [c] + Print(rest)
    case Str(quote, body, rest) => PrintString(quote, body) + Print(rest)
    case Group(bracket, inner, rest) => [bracket.Open()] + Print(inner) + ([bracket.Close()] + Print(rest))
  }

  lemma InsideMark(m: Mark, s: string, quote: char)
    requires m.Plain? ==> m.c != quote && m.c != '\\'
    requires Inside(s, quote).Some? && quote != '\\'
    ensures Inside(PrintMark(m) + s, quote) == Some(|PrintMark(m)| + Inside(s, quote).value)
  {
    assert (PrintMark(m) + s)[|PrintMark(m)|..] == s;
  }

  lemma {:induction false} PrintedInside(body: seq<Mark>, quote: char)
    requires IsQuote(quote) && AreMarks(body, quote)
    ensures var text := FlatMap(body, PrintMark) + [quote]; Inside(text, quote) == Some(|text|)
  {
    if body != [] {
      var m := body[0];
      assert m in body && forall x :: x in body[1..] ==> x in body;
      PrintedInside(body[1..], quote);
      var rest := FlatMap(body[1..], PrintMark) + [quote];
      assert FlatMap(body, PrintMark) + [quote] == PrintMark(m) + rest;
      InsideMark(m, rest, quote);
    }
  }

  lemma PrintedString(quote: char, body: seq<Mark>)
    requires IsQuote(quote) && AreMarks(body, quote)
    ensures var text := PrintString(quote, body);
      text != [] && text[0] == quote && TokenCloses(text) && TokenLength(text) == |text|
  {
    PrintedInside(body, quote);
    assert PrintString(quote, body)[1..] == FlatMap(body, PrintMark) + [quote];
  }

  predicate Inward(d: Depths) {
    d.paren >= 0 && d.brace >= 0 && d.bracket >= 0
  }

  /** A bracket or other single character in front. */
  lemma AfterChar(c: char, s: string, d: Depths)
    requires !IsQuote(c) && !(c == ',' && d == TOP)
    ensures After([c] + s, d) == After(s, Shift(d, c))
  {
    assert ([c] + s)[1..] == s;
  }

  lemma AfterString(quote: char, body: seq<Mark>, s: string, d: Depths)
    requires IsQuote(quote) && AreMarks(body, quote)
    ensures After(PrintString(quote, body) + s, d) == After(s, d)
  {
    PrintedString(quote, body);
    AfterToken(PrintString(quote, body), s, d);
  }

  lemma AfterToken(token: string, s: string, d: Depths)
    requires token != [] && TokenCloses(token) && TokenLength(token) == |token| && !(token[0] == ',' && d == TOP)
    ensures After(token + s, d) == After(s, Shift(d, token[0]))
  {
    TokenAppend(token, s);
    assert token[|token|..] + s == s;
  }

  lemma AfterGroup(bracket: Bracket, inner: string, s: string, d: Depths)
    requires Inward(d) && After(inner, Shift(d, bracket.Open())) == Some(Shift(d, bracket.Open()))
    ensures After([bracket.Open()] + inner + ([bracket.Close()] + s), d) == After(s, d)
  {
    var inside := Shift(d, bracket.Open());
    AfterChar(bracket.Open(), inner, d);
    AfterAppend([bracket.Open()] + inner, [bracket.Close()] + s, d);
    AfterChar(bracket.Close(), s, inside);
  }

  /** Nested text closes what it opens; its commas count only at the top. */
  lemma {:induction false} NestedIsClosed(code: Code, d: Depths)
    requires WellFormed(code) && Inward(d) && (d != TOP || NoTopComma(code))
    ensures After(Print(code), d) == Some(d)
  {
    match code {
      case End =>
      case Char(c, rest) =>
        AfterChar(c, Print(rest), d);
        NestedIsClosed(rest, d);
      case Str(quote, body, rest) =>
        AfterString(quote, body, Print(rest), d);
        NestedIsClosed(rest, d);
      case Group(bracket, inner, rest) =>
        NestedIsClosed(inner, Shift(d, bracket.Open()));
        AfterGroup(bracket, Print(inner), Print(rest), d);
        NestedIsClosed(rest, d);
    }
  }

  // --------------------------------------------------------- matching pairs

  function Level(c: char, open: char, close: char): int {
    if IsQuote(c) then 0 else if c == open then 1 else if c == close then -1 else 0
  }

  function MatchFrom(s: string, depth: int, open: char, close: char): (r: Option<nat>)
    ensures r.Some? ==> r.value < |s|
    decreases |s|
  {
    if s == [] then None
    else
      var level := Level(s[0], open, close);
      if level == -1 && depth == 1 then Some(0)
      else
        var rest := MatchFrom(s[TokenLength(s)..], depth + level, open, close);
        if rest.None? then None else Some(TokenLength(s) + rest.value)
  }

  /** The same within a longer source, as an index, or -1. */
  function MatchIndex(source: string, index: nat, depth: int, open: char, close: char): int {
    if index > |source| || MatchFrom(source[index..], depth, open, close).None? then -1
    else index + MatchFrom(source[index..], depth, open, close).value
  }

  lemma MatchStep(source: string, index: nat, depth: int, open: char, close: char)
    requires index < |source|
    ensures var level := Level(source[index], open, close);
      MatchIndex(source, index, depth, open, close)
      == if level == -1 && depth == 1 then index
         else MatchIndex(source, index + TokenLength(source[index..]), depth + level, open, close)
  {
    var ahead := source[index..];
    assert ahead[TokenLength(ahead)..] == source[index + TokenLength(ahead)..];
  }

  method FindMatchingPair(source: string, openIndex: nat, open: char, close: char) returns (r: int)
    ensures r == MatchIndex(source, openIndex, 0, open, close)
  {
    hide MatchIndex;
    var depth := 0;
    var index := openIndex;
    while index < |source|
      invariant MatchIndex(source, openIndex, 0, open, close) == MatchIndex(source, index, depth, open, close)
    {
      var character := source[index];
      MatchStep(source, index, depth, open, close);
      if character == '\'' || character == '"' {
        SkipIsToken(source, index);
        index := SkipQuoted(source, index, character);
        continue;
      }
      if character == '`' {
        SkipIsToken(source, index);
        index := SkipTemplate(source, index);
        continue;
      }
      if character == open {
        depth := depth + 1;
      } else if character == close {
        depth := depth - 1;
        if depth == 0 {
          return index;
        }
      }
      index := index + 1;
    }
    NoMatchAtEnd(source, index, depth, open, close);
    return -1;
  }

  lemma NoMatchAtEnd(source: string, index: nat, depth: int, open: char, close: char)
    requires index >= |source|
    ensures MatchIndex(source, index, depth, open, close) == -1
  {
  }

  /** The net number of openings of a text that closes its strings and never
      closes more than was open. */
  function Net(s: string, depth: nat, open: char, close: char): Option<nat>
    decreases |s|
  {
    if s == [] then Some(depth)
    else
      var level := Level(s[0], open, close);
      if !TokenCloses(s) || depth + level < 0 then None
      else Net(s[TokenLength(s)..], depth + level, open, close)
  }

  predicate Balanced(s: string, open: char, close: char) {
    Net(s, 0, open, close) == Some(0)
  }

  lemma {:induction false} NetAppend(a: string, b: string, depth: nat, open: char, close: char)
    requires Net(a, depth, open, close).Some?
    ensures Net(a + b, depth, open, close) == Net(b, Net(a, depth, open, close).value, open, close)
    decreases |a|
  {
    if a == [] {
      assert a + b == b;
    } else {
      TokenAppend(a, b);
      NetAppend(a[TokenLength(a)..], b, depth + Level(a[0], open, close), open, close);
    }
  }

  /** A front of a text: cut after its first token, or within it. */
  lemma FrontToken(s: string, k: nat)
    requires 1 <= k <= |s|
    ensures TokenCloses(s[..k]) <==> TokenCloses(s) && TokenLength(s) <= k
    ensures TokenCloses(s[..k]) ==> TokenLength(s[..k]) == TokenLength(s) && s[..k][TokenLength(s)..] == s[TokenLength(s)..][..k - TokenLength(s)]
  {
    var front := s[..k];
    assert front + s[k..] == s;
    if TokenCloses(front) {
      TokenAppend(front, s[k..]);
    }
    if TokenCloses(s) && TokenLength(s) <= k {
      TokenAlone(s);
      assert s[..TokenLength(s)] + front[TokenLength(s)..] == front;
      TokenAppend(s[..TokenLength(s)], front[TokenLength(s)..]);
    }
  }

  lemma NetFront(s: string, k: nat, depth: nat, open: char, close: char)
    requires 1 <= k <= |s|
    ensures var level, n := Level(s[0], open, close), TokenLength(s);
      Net(s[..k], depth, open, close)
      == if !TokenCloses(s) || n > k || depth + level < 0 then None
         else Net(s[n..][..k - n], depth + level, open, close)
  {
    FrontToken(s, k);
    assert s[..k] != [] && s[..k][0] == s[0];
  }

  lemma MatchFront(s: string, k: nat, depth: nat, open: char, close: char)
    requires 1 <= k
    ensures var level := if s == [] then 0 else Level(s[0], open, close);
      MatchFrom(s, depth + 1, open, close) == Some(k)
      <==> s != [] && depth + level >= 0 && TokenLength(s) <= k
           && MatchFrom(s[TokenLength(s)..], depth + level + 1, open, close) == Some(k - TokenLength(s))
  {
  }

  lemma MatchNow(s: string, depth: nat, open: char, close: char)
    requires !IsQuote(close) && open != close
    ensures MatchFrom(s, depth + 1, open, close) == Some(0) <==> s != [] && s[0] == close && depth == 0
  {
  }

  lemma {:induction false} MatchIffNet(s: string, depth: nat, open: char, close: char, k: nat)
    requires !IsQuote(close) && open != close
    ensures MatchFrom(s, depth + 1, open, close) == Some(k)
       <==> k < |s| && s[k] == close && Net(s[..k], depth, open, close) == Some(0)
    decreases |s|
  {
    hide MatchFrom;
    if k == 0 {
      MatchNow(s, depth, open, close);
      assert s[..0] == [];
    } else {
      MatchFront(s, k, depth, open, close);
      if k < |s| {
        var level, n := Level(s[0], open, close), TokenLength(s);
        NetFront(s, k, depth, open, close);
        if depth + level >= 0 && n <= k {
          MatchIffNet(s[n..], depth + level, open, close, k - n);
          assert s[n..][k - n] == s[k];
        }
      }
    }
  }

  lemma MatchOpen(text: string, open: char, close: char)
    requires !IsQuote(open)
    ensures var rest := MatchFrom(text, 1, open, close);
      MatchFrom([open] + text, 0, open, close) == if rest.None? then None else Some(1 + rest.value)
  {
    assert ([open] + text)[1..] == text;
  }

  /** The scan from an opening finds position `k` iff a closing stands there and
      the text between is balanced: through nested brackets, strings and escapes,
      whatever follows. It finds nothing iff there is no such position. */
  lemma {:induction false} FindsTheMatch(text: string, open: char, close: char, k: nat)
    requires !IsQuote(open) && !IsQuote(close) && open != close
    ensures MatchFrom([open] + text, 0, open, close) == Some(k + 1)
       <==> k < |text| && text[k] == close && Balanced(text[..k], open, close)
    ensures MatchFrom([open] + text, 0, open, close) != Some(0)
  {
    hide MatchFrom;
    MatchOpen(text, open, close);
    MatchIffNet(text, 0, open, close, k);
  }

  lemma NetChar(c: char, s: string, depth: nat, open: char, close: char)
    requires !IsQuote(c) && depth + Level(c, open, close) >= 0
    ensures Net([c] + s, depth, open, close) == Net(s, depth + Level(c, open, close), open, close)
  {
    assert ([c] + s)[1..] == s;
  }

  lemma NetString(quote: char, body: seq<Mark>, s: string, depth: nat, open: char, close: char)
    requires IsQuote(quote) && AreMarks(body, quote)
    ensures Net(PrintString(quote, body) + s, depth, open, close) == Net(s, depth, open, close)
  {
    PrintedString(quote, body);
    NetToken(PrintString(quote, body), s, depth, open, close);
  }

  lemma NetToken(token: string, s: string, depth: nat, open: char, close: char)
    requires token != [] && TokenCloses(token) && TokenLength(token) == |token|
    requires depth + Level(token[0], open, close) >= 0
    ensures Net(token + s, depth, open, close) == Net(s, depth + Level(token[0], open, close), open, close)
  {
    TokenAppend(token, s);
    assert token[|token|..] + s == s;
  }

  lemma NetGroup(bracket: Bracket, inner: string, s: string, depth: nat, pair: Bracket)
    requires var inside := if bracket == pair then depth + 1 else depth;
      Net(inner, inside, pair.Open(), pair.Close()) == Some(inside)
    ensures Net([bracket.Open()] + inner + ([bracket.Close()] + s), depth, pair.Open(), pair.Close())
         == Net(s, depth, pair.Open(), pair.Close())
  {
    var open, close := pair.Open(), pair.Close();
    NetChar(bracket.Open(), inner, depth, open, close);
    NetAppend([bracket.Open()] + inner, [bracket.Close()] + s, depth, open, close);
    NetChar(bracket.Close(), s, if bracket == pair then depth + 1 else depth, open, close);
  }

  /** Nested text is balanced for each kind of bracket. */
  lemma {:induction false} NestedIsBalanced(code: Code, depth: nat, pair: Bracket)
    requires WellFormed(code)
    ensures Net(Print(code), depth, pair.Open(), pair.Close()) == Some(depth)
  {
    match code {
      case End =>
      case Char(c, rest) =>
        NetChar(c, Print(rest), depth, pair.Open(), pair.Close());
        NestedIsBalanced(rest, depth, pair);
      case Str(quote, body, rest) =>
        NetString(quote, body, Print(rest), depth, pair.Open(), pair.Close());
        NestedIsBalanced(rest, depth, pair);
      case Group(bracket, inner, rest) =>
        NestedIsBalanced(inner, if bracket == pair then depth + 1 else depth, pair);
        NetGroup(bracket, Print(inner), Print(rest), depth, pair);
        NestedIsBalanced(rest, depth, pair);
    }
  }

  /** A bracket group is matched at its own closing, whatever follows. */
  lemma GroupIsMatched(inner: Code, pair: Bracket, rest: string)
    requires WellFormed(inner)
    ensures MatchFrom([pair.Open()] + Print(inner) + [pair.Close()] + rest, 0, pair.Open(), pair.Close())
         == Some(|Print(inner)| + 1)
  {
    hide MatchFrom, Print, Net;
    var text := Print(inner) + [pair.Close()] + rest;
    NestedIsBalanced(inner, 0, pair);
    FindsTheMatch(text, pair.Open(), pair.Close(), |Print(inner)|);
    assert text[..|Print(inner)|] == Print(inner);
    Associate([pair.Open()], Print(inner), [pair.Close()], rest);
  }
}
