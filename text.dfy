/** The parts of Python's string handling that the core relies on:
    `int()` on a decimal or hexadecimal literal and `str.split`. */
module Text {
  import opened Wrappers

  predicate IsDigit(c: char) { '0' <= c <= '9' }

  predicate IsUpper(c: char) { 'A' <= c <= 'Z' }

  predicate AllDigits(s: string) { forall i :: 0 <= i < |s| ==> IsDigit(s[i]) }

  /** A string on which Python's `int()` has none of its lenient readings:
      only printable ASCII, no white space, no sign and no underscore.
      For such a string `int()` succeeds exactly on a non-empty run of digits. */
  predicate Plain(s: string) {
    forall i :: 0 <= i < |s| ==> '!' <= s[i] <= '~' && s[i] != '+' && s[i] != '-' && s[i] != '_'
  }

  function DigitValue(c: char): (d: nat)
    requires IsDigit(c)
    ensures d < 10
  {
    c as int - '0' as int
  }

  /** The value of a string of decimal digits, most significant first. */
  function DecimalValue(s: string): nat
    requires AllDigits(s)
  {
    if s == [] then 0 else DecimalValue(s[..|s| - 1]) * 10 + DigitValue(s[|s| - 1])
  }

  /** Python's `int(s)` on a plain string: `None` stands for the `ValueError`. */
  function PyInt(s: string): (r: Option<nat>)
    requires Plain(s)
    ensures r.Some? <==> |s| > 0 && AllDigits(s)
  {
    if |s| > 0 && AllDigits(s) then Some(DecimalValue(s)) else None
  }

  /** The decimal spelling of `n` without leading zeros ("0" for zero). */
  function Decimal(n: nat): (s: string)
    ensures |s| > 0 && AllDigits(s)
    decreases n
  {
    var last := ['0' + (n % 10) as char];
    if n < 10 then last else Decimal(n / 10) + last
  }

  /** Reading back the decimal spelling of a number gives the number. */
  lemma {:induction false} DecimalRoundTrip(n: nat)
    ensures DecimalValue(Decimal(n)) == n
    decreases n
  {
    var s := Decimal(n);
    if n < 10 {
      assert s[..|s| - 1] == [];
    } else {
      DecimalRoundTrip(n / 10);
      assert s[..|s| - 1] == Decimal(n / 10);
    }
  }

  predicate IsHexDigit(c: char) { '0' <= c <= '9' || 'a' <= c <= 'f' || 'A' <= c <= 'F' }

  function HexValue(c: char): (v: nat)
    requires IsHexDigit(c)
    ensures v < 16
  {
    if '0' <= c <= '9' then c as int - '0' as int
    else if 'a' <= c <= 'f' then c as int - 'a' as int + 10
    else c as int - 'A' as int + 10
  }

  /** The lower-case hexadecimal digit of a value below 16. */
  function HexChar(v: nat): (c: char)
    requires v < 16
    ensures IsHexDigit(c) && HexValue(c) == v
  {
    if v < 10 then '0' + v as char else 'a' + (v - 10) as char
  }

  /** The characters `str.isspace` accepts, which `int()` strips from both ends. */
  predicate IsSpace(c: char)
  {
    '\t' <= c <= '\r' || '\U{1c}' <= c <= ' ' || c == '\U{85}' || c == '\U{a0}' || c == '\U{1680}'
    || '\U{2000}' <= c <= '\U{200a}' || c == '\U{2028}' || c == '\U{2029}' || c == '\U{202f}'
    || c == '\U{205f}' || c == '\U{3000}'
  }

  /** `s.lstrip()`. */
  function StripStart(s: string): (t: string)
    ensures |t| <= |s|
  {
    if |s| > 0 && IsSpace(s[0]) then StripStart(s[1..]) else s
  }

  /** `s.rstrip()`. */
  function StripEnd(s: string): (t: string)
    ensures |t| <= |s|
  {
    if |s| > 0 && IsSpace(s[|s| - 1]) then StripEnd(s[..|s| - 1]) else s
  }

  predicate IsSign(c: char) { c == '+' || c == '-' }

  /** What `int(b, 16)` makes of a string already stripped of white space:
      one or two hexadecimal digits, or a sign and one digit; anything else
      (the empty string, a lone sign, an inner space) raises `ValueError`,
      here None. Only the shapes of at most two characters are listed. */
  function ReadHex(b: string): Option<int>
  {
    if |b| == 1 && IsHexDigit(b[0]) then Some(HexValue(b[0]))
    else if |b| == 2 && IsHexDigit(b[0]) && IsHexDigit(b[1]) then Some(HexValue(b[0]) * 16 + HexValue(b[1]))
    else if |b| == 2 && IsSign(b[0]) && IsHexDigit(b[1]) then Some(if b[0] == '-' then 0 - HexValue(b[1]) as int else HexValue(b[1]))
    else None
  }

  /** Python's `int(s, 16)` on the slices of at most two characters that
      `encode_token` cuts, shape by shape: a digit; two digits; a digit
      next to a white-space character on either side; a sign and a digit. */
  function PyHexInt(s: string): (r: Option<int>)
    requires |s| <= 2
    ensures r.Some? ==> -15 <= r.value < 256
    ensures r.Some? ==> exists i :: 0 <= i < |s| && IsHexDigit(s[i])
  {
    if |s| == 1 && IsHexDigit(s[0]) then Some(HexValue(s[0]))
    else if |s| == 2 && IsHexDigit(s[0]) && IsHexDigit(s[1]) then Some(HexValue(s[0]) * 16 + HexValue(s[1]))
    else if |s| == 2 && IsHexDigit(s[0]) && IsSpace(s[1]) then Some(HexValue(s[0]))
    else if |s| == 2 && (IsSpace(s[0]) || s[0] == '+') && IsHexDigit(s[1]) then Some(HexValue(s[1]))
    else if |s| == 2 && s[0] == '-' && IsHexDigit(s[1]) then Some(0 - HexValue(s[1]) as int)
    else None
  }

  lemma SpaceNotDigit(c: char)
    ensures IsSpace(c) ==> !IsHexDigit(c) && !IsSign(c)
  {
  }

  lemma PyHexIntStripsOne(s: string)
    requires |s| == 1
    ensures PyHexInt(s) == ReadHex(StripEnd(StripStart(s)))
  {
    SpaceNotDigit(s[0]);
    if IsSpace(s[0]) {
      assert StripStart(s) == StripStart(s[1..]) == [];
    } else {
      assert StripStart(s) == s && StripEnd(s) == s;
    }
  }

  lemma PyHexIntStripsTwo(s: string)
    requires |s| == 2
    ensures PyHexInt(s) == ReadHex(StripEnd(StripStart(s)))
  {
    SpaceNotDigit(s[0]);
    SpaceNotDigit(s[1]);
    if IsSpace(s[0]) {
      assert StripStart(s) == StripStart(s[1..]);
      PyHexIntStripsOne(s[1..]);
    } else if IsSpace(s[1]) {
      assert StripStart(s) == s;
      assert StripEnd(s) == StripEnd(s[..1]);
      PyHexIntStripsOne(s[..1]);
    } else {
      assert StripStart(s) == s && StripEnd(s) == s;
    }
  }

  /** The shapes are exactly what `int()` does: strip white space from both
      ends, then read what is left. */
  lemma PyHexIntStrips(s: string)
    requires |s| <= 2
    ensures PyHexInt(s) == ReadHex(StripEnd(StripStart(s)))
  {
    if |s| == 1 {
      PyHexIntStripsOne(s);
    } else if |s| == 2 {
      PyHexIntStripsTwo(s);
    }
  }

  function Count(s: string, sep: char): nat
  {
    if s == [] then 0 else Count(s[1..], sep) + (if s[0] == sep then 1 else 0)
  }

  /** Python's `s.split(sep)` for a one-character separator: every
      occurrence cuts, empty pieces are kept, and "" gives [""]. */
  function Split(s: string, sep: char): (r: seq<string>)
    ensures |r| == Count(s, sep) + 1
    ensures forall k, i :: 0 <= k < |r| && 0 <= i < |r[k]| ==> r[k][i] != sep
    decreases |s|
  {
    if s == [] then [""]
    else
      var rest := Split(s[1..], sep);
      if s[0] == sep then [""] + rest
      else [[s[0]] + rest[0]] + rest[1..]
  }

  /** Python's `sep.join(pieces)`, the inverse of `Split`. */
  function Join(pieces: seq<string>, sep: char): string
    requires |pieces| > 0
  {
    if |pieces| == 1 then pieces[0] else pieces[0] + [sep] + Join(pieces[1..], sep)
  }

  /** Splitting loses nothing: joining the pieces again gives the string back. */
  lemma {:induction false} SplitJoin(s: string, sep: char)
    ensures Join(Split(s, sep), sep) == s
    decreases |s|
  {
    if s != [] {
      var rest := Split(s[1..], sep);
      SplitJoin(s[1..], sep);
      if s[0] == sep {
        assert Split(s, sep)[1..] == rest;
      } else {
        var r := Split(s, sep);
        if |rest| == 1 {
          assert r == [[s[0]] + rest[0]];
        } else {
          assert r[1..] == rest[1..];
          assert Join(rest, sep) == rest[0] + [sep] + Join(rest[1..], sep);
        }
      }
    }
  }
}
