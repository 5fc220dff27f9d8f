/** `CharacterMapper`: vendor device-ID strings, in which upper-case letters
    stand for decimal digits, read as integers. */
module Mapper {
  import opened Wrappers
  import opened Text

  /** `s.replace(a, b)` for single characters: every occurrence is replaced. */
  function Replace(s: string, a: char, b: char): (r: string)
    ensures |r| == |s|
    ensures forall i :: 0 <= i < |s| ==> r[i] == (if s[i] == a then b else s[i])
  {
    seq(|s|, i requires 0 <= i < |s| => if s[i] == a then b else s[i])
  }

  /** The `k`-th `replace` call of the source's chain, as (letter, digit). */
  function Replacement(k: nat): (p: (char, char))
    requires k < 26
    ensures IsUpper(p.0) && IsDigit(p.1)
  {
    match k
    case 0 => ('D', '0')
    case 1 => ('X', '0')
    case 2 => ('O', '0')
    case 3 => ('I', '1')
    case 4 => ('J', '1')
    case 5 => ('L', '1')
    case 6 => ('N', '2')
    case 7 => ('S', '2')
    case 8 => ('Z', '2')
    case 9 => ('E', '3')
    case 10 => ('W', '3')
    case 11 => ('M', '3')
    case 12 => ('A', '4')
    case 13 => ('G', '4')
    case 14 => ('H', '4')
    case 15 => ('F', '5')
    case 16 => ('K', '5')
    case 17 => ('C', '6')
    case 18 => ('U', '6')
    case 19 => ('Y', '7')
    case 20 => ('V', '7')
    case 21 => ('T', '7')
    case 22 => ('B', '8')
    case 23 => ('Q', '9')
    case 24 => ('R', '9')
    case 25 => ('P', '9')
  }

  /** The first `k` calls of the chain, applied in order. */
  function Chain(s: string, k: nat): (r: string)
    requires k <= 26
    ensures |r| == |s|
  {
    if k == 0 then s
    else Replace(Chain(s, k - 1), Replacement(k - 1).0, Replacement(k - 1).1)
  }

  /** The whole chain of 26 `replace` calls. */
  function Substitute(s: string): string
  {
    Chain(s, 26)
  }

  /** What the first `k` calls do to a single character. */
  function CharChain(c: char, k: nat): char
    requires k <= 26
  {
    if k == 0 then c
    else if CharChain(c, k - 1) == Replacement(k - 1).0 then Replacement(k - 1).1
    else CharChain(c, k - 1)
  }

  /** The chain rewrites each position of the string on its own. */
  lemma {:induction false} ChainAt(s: string, k: nat, i: nat)
    requires k <= 26 && i < |s|
    ensures Chain(s, k)[i] == CharChain(s[i], k)
  {
    if k > 0 {
      ChainAt(s, k - 1, i);
    }
  }

  /** The table the chain implements, one character at a time. */
  function DigitFor(c: char): char
  {
    match c
    case 'D' | 'X' | 'O' => '0'
    case 'I' | 'J' | 'L' => '1'
    case 'N' | 'S' | 'Z' => '2'
    case 'E' | 'W' | 'M' => '3'
    case 'A' | 'G' | 'H' => '4'
    case 'F' | 'K' => '5'
    case 'C' | 'U' => '6'
    case 'Y' | 'V' | 'T' => '7'
    case 'B' => '8'
    case 'Q' | 'R' | 'P' => '9'
    case _ => c
  }

  /** Every upper-case letter becomes a digit, and every other character,
      digits included, is left as it is. */
  lemma DigitForTable(c: char)
    ensures IsUpper(c) ==> IsDigit(DigitFor(c))
    ensures !IsUpper(c) ==> DigitFor(c) == c
  {
  }

  /** Which call of the chain names the letter `c`, or -1 for any other character. */
  function Position(c: char): (k: int)
    ensures -1 <= k < 26
  {
    match c
    case 'D' => 0
    case 'X' => 1
    case 'O' => 2
    case 'I' => 3
    case 'J' => 4
    case 'L' => 5
    case 'N' => 6
    case 'S' => 7
    case 'Z' => 8
    case 'E' => 9
    case 'W' => 10
    case 'M' => 11
    case 'A' => 12
    case 'G' => 13
    case 'H' => 14
    case 'F' => 15
    case 'K' => 16
    case 'C' => 17
    case 'U' => 18
    case 'Y' => 19
    case 'V' => 20
    case 'T' => 21
    case 'B' => 22
    case 'Q' => 23
    case 'R' => 24
    case 'P' => 25
    case _ => -1
  }

  /** Each call of the chain names a different letter. */
  lemma PositionInverts(m: nat)
    requires m < 26
    ensures Position(Replacement(m).0) == m
  {
  }

  /** The letters named by the chain are exactly the upper-case ones, and
      the call naming a letter turns it into the table's digit. */
  lemma PositionOfLetter(c: char)
    ensures Position(c) >= 0 <==> IsUpper(c)
    ensures IsUpper(c) ==> Replacement(Position(c)) == (c, DigitFor(c))
  {
  }

  /** A character is rewritten by the one call that names it, and no later
      call touches the digit it became; a character no call names is kept. */
  lemma {:induction false} CharChainFirst(c: char, k: nat)
    requires k <= 26
    ensures CharChain(c, k) == if 0 <= Position(c) < k then Replacement(Position(c)).1 else c
  {
    if k > 0 {
      CharChainFirst(c, k - 1);
      PositionInverts(k - 1);
      PositionOfLetter(c);
    }
  }

  /** The whole chain, on one character, is the table. */
  lemma CharChainTable(c: char)
    ensures CharChain(c, 26) == DigitFor(c)
  {
    CharChainFirst(c, 26);
    PositionOfLetter(c);
    DigitForTable(c);
  }

  /** The replacement chain works character by character: no replacement
      introduces a letter that a later one would rewrite again. */
  lemma SubstituteIsPerCharacter(s: string)
    ensures |Substitute(s)| == |s|
    ensures forall i :: 0 <= i < |s| ==> Substitute(s)[i] == DigitFor(s[i])
  {
    forall i | 0 <= i < |s| ensures Substitute(s)[i] == DigitFor(s[i]) {
      ChainAt(s, 26, i);
      CharChainTable(s[i]);
    }
  }

  /** A device-ID string is accepted exactly when it is a non-empty string
      of upper-case letters and digits. */
  predicate Accepted(s: string)
  {
    |s| > 0 && forall i :: 0 <= i < |s| ==> IsUpper(s[i]) || IsDigit(s[i])
  }

  /** The digit string an accepted ID stands for. */
  function Digits(s: string): (d: string)
    requires Accepted(s)
    ensures |d| == |s| && AllDigits(d)
  {
    seq(|s|, i requires 0 <= i < |s| => DigitForTable(s[i]); DigitFor(s[i]))
  }

  /** `parse_custom_encoded_string`: the integer the substituted string spells,
      or -1 where `int()` raises. */
  function ParseCustomEncodedString(s: string): (r: int)
    requires Plain(s)
    ensures r >= -1
    ensures r >= 0 <==> Accepted(s)
    ensures Accepted(s) ==> r == DecimalValue(Digits(s))
  {
    SubstituteIsPerCharacter(s);
    var t := Substitute(s);
    assert Plain(t) by {
      forall i | 0 <= i < |t| ensures '!' <= t[i] <= '~' && t[i] != '+' && t[i] != '-' && t[i] != '_' {
        DigitForTable(s[i]);
      }
    }
    assert AllDigits(t) <==> forall i :: 0 <= i < |s| ==> IsUpper(s[i]) || IsDigit(s[i]) by {
      forall i | 0 <= i < |s| ensures IsDigit(t[i]) <==> IsUpper(s[i]) || IsDigit(s[i]) {
        DigitForTable(s[i]);
      }
    }
    assert Accepted(s) ==> t == Digits(s);
    match PyInt(t)
    case Some(n) => n
    case None => -1
  }

  /** The decimal spelling of a number is read back as that number. */
  lemma ParseDecimal(n: nat)
    ensures Plain(Decimal(n)) && ParseCustomEncodedString(Decimal(n)) == n
  {
    var s := Decimal(n);
    assert Accepted(s);
    assert Digits(s) == s by {
      forall i | 0 <= i < |s| ensures Digits(s)[i] == s[i] {
        DigitForTable(s[i]);
      }
    }
    DecimalRoundTrip(n);
  }

  /** A lower-case letter anywhere, or an empty string, gives -1. */
  lemma RejectsLowerCaseAndEmpty(s: string, k: nat)
    requires Plain(s) && k < |s| && 'a' <= s[k] <= 'z'
    ensures ParseCustomEncodedString(s) == -1 && ParseCustomEncodedString("") == -1
  {
  }

  lemma ExampleLetters()
    ensures ParseCustomEncodedString("AB12") == 4812
  {
    var s := "AB12";
    assert Accepted(s);
    var d := Digits(s);
    assert d == "4812";
    assert d[..3] == "481" && d[..3][..2] == "48" && d[..3][..2][..1] == "4";
    assert DecimalValue("4") == 4 by { assert "4"[..0] == ""; }
    assert DecimalValue("48") == 48 by { assert "48"[..1] == "4"; }
    assert DecimalValue("481") == 481 by { assert "481"[..2] == "48"; }
    assert DecimalValue("4812") == 4812 by { assert "4812"[..3] == "481"; }
  }
}
