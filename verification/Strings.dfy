/** Text operations of the standard libraries that several components use. */
module Strings {

  /** Concatenation, regrouped. */
  lemma AssociateThree(a: string, b: string, c: string)
    ensures a + b + c == a + (b + c)
  {
  }

  lemma Associate(a: string, b: string, c: string, d: string)
    ensures a + b + c + d == a + (b + c + d) == a + (b + (c + d))
  {
  }

  lemma AssociateFive(a: string, b: string, c: string, d: string, e: string)
    ensures a + b + c + d + e == a + (b + c + d + e) == a + (b + c + d) + e == a + b + (c + d + e)
  {
  }

  /** `join` and its like. */
  function Join(parts: seq<string>, between: string): string {
    if parts == [] then []
    else if |parts| == 1 then parts[0]
    else parts[0] + between + Join(parts[1..], between)
  }

  lemma JoinCons(first: string, parts: seq<string>, between: string)
    requires parts != []
    ensures Join([first] + parts, between) == first + between + Join(parts, between)
  {
    assert ([first] + parts)[1..] == parts;
  }

  predicate Contains(text: string, part: string) {
    exists i :: 0 <= i <= |text| && part <= text[i..]
  }

  predicate EndsWith(text: string, end: string) {
    |end| <= |text| && text[|text| - |end|..] == end
  }

  /** The characters equal to `c`. */
  function Is(c: char): char -> bool {
    x => x == c
  }

  function TrimStart(s: string, drop: char -> bool): string {
    if s != [] && drop(s[0]) then TrimStart(s[1..], drop) else s
  }

  function TrimEnd(s: string, drop: char -> bool): (t: string)
    ensures t <= s && (t != [] ==> !drop(t[|t| - 1]))
    ensures forall i :: |t| <= i < |s| ==> drop(s[i])
  {
    if s != [] && drop(s[|s| - 1]) then TrimEnd(s[..|s| - 1], drop) else s
  }

  function Trim(s: string, drop: char -> bool): string {
    TrimEnd(TrimStart(s, drop), drop)
  }

  lemma {:induction false} TrimStartFront(front: string, s: string, drop: char -> bool)
    requires forall c :: c in front ==> drop(c)
    ensures TrimStart(front + s, drop) == TrimStart(s, drop)
  {
    if front == [] {
      assert front + s == s;
    } else {
      assert front[0] in front && (front + s)[1..] == front[1..] + s;
      TrimStartFront(front[1..], s, drop);
    }
  }

  lemma {:induction false} TrimEndBack(s: string, back: string, drop: char -> bool)
    requires forall c :: c in back ==> drop(c)
    ensures TrimEnd(s + back, drop) == TrimEnd(s, drop)
  {
    if back == [] {
      assert s + back == s;
    } else {
      var n := |back| - 1;
      assert back[n] in back && (s + back)[..|s| + n] == s + back[..n];
      TrimEndBack(s, back[..n], drop);
    }
  }

  /** What is dropped around a text that neither begins nor ends with such is all
      that is dropped. */
  lemma TrimAround(front: string, s: string, back: string, drop: char -> bool)
    requires forall c :: c in front + back ==> drop(c)
    requires s != [] ==> !drop(s[0]) && !drop(s[|s| - 1])
    ensures Trim(front + s + back, drop) == s
  {
    assert front + s + back == front + (s + back);
    TrimStartFront(front, s + back, drop);
    if s == [] {
      assert s + back == back + [];
      TrimStartFront(back, [], drop);
    } else {
      TrimEndBack(s, back, drop);
    }
  }

  lemma {:induction false} TrimStartShrinks(s: string, drop: char -> bool)
    ensures |TrimStart(s, drop)| <= |s|
    ensures |TrimStart(s, drop)| == |s| ==> TrimStart(s, drop) == s && (s != [] ==> !drop(s[0]))
  {
    if s != [] && drop(s[0]) {
      TrimStartShrinks(s[1..], drop);
    }
  }

  lemma TrimmedEnds(s: string, drop: char -> bool)
    requires Trim(s, drop) == s && s != []
    ensures !drop(s[0]) && !drop(s[|s| - 1])
  {
    TrimStartShrinks(s, drop);
  }

  // ---------------------------------------------------------- the alphabet

  const UPPER := "ABCDEFGHIJKLMNOPQRSTUVWXYZ"

  const LOWER := "abcdefghijklmnopqrstuvwxyz"

  const DIGITS := "0123456789"

  lemma UpperInOrder(k: nat)
    requires k < 26
    ensures UPPER[k] as int == 'A' as int + k
  {
  }

  lemma LowerInOrder(k: nat)
    requires k < 26
    ensures LOWER[k] as int == 'a' as int + k
  {
  }

  lemma DigitsInOrder(k: nat)
    requires k < 10
    ensures DIGITS[k] as int == '0' as int + k
  {
  }

  /** The letters and digits are those of their ranges. */
  lemma InUpper(c: char)
    ensures c in UPPER <==> 'A' <= c <= 'Z'
  {
    if 'A' <= c <= 'Z' {
      UpperInOrder(c as int - 'A' as int);
    } else if c in UPPER {
      var k :| 0 <= k < 26 && UPPER[k] == c;
      UpperInOrder(k);
    }
  }

  lemma InLower(c: char)
    ensures c in LOWER <==> 'a' <= c <= 'z'
  {
    if 'a' <= c <= 'z' {
      LowerInOrder(c as int - 'a' as int);
    } else if c in LOWER {
      var k :| 0 <= k < 26 && LOWER[k] == c;
      LowerInOrder(k);
    }
  }

  lemma InDigits(c: char)
    ensures c in DIGITS <==> '0' <= c <= '9'
  {
    if '0' <= c <= '9' {
      DigitsInOrder(c as int - '0' as int);
    } else if c in DIGITS {
      var k :| 0 <= k < 10 && DIGITS[k] == c;
      DigitsInOrder(k);
    }
  }
}
