/**
 * `btoa` and `atob` of the Web platform. `btoa` is the base64 encoding of
 * section 4 of RFC 4648 (with `=` padding) applied to a string whose
 * characters are all in U+0000..U+00FF, and throws otherwise; `atob` is the
 * forgiving-base64 decode of the WHATWG Infra Standard.
 */
module Base64 {
  import opened Wrappers

  /** Every character is a Latin-1 code unit, i.e. stands for one byte. */
  predicate IsLatin1(s: string)
  {
    forall i :: 0 <= i < |s| ==> s[i] as int < 256
  }

  /** The 64-character alphabet of section 4 of RFC 4648. */
  function Letter(i: int): (c: char)
    requires 0 <= i < 64
    ensures IsAlphabetChar(c) && c != '='
  {
    if i < 26 then ('A' as int + i) as char
    else if i < 52 then ('a' as int + i - 26) as char
    else if i < 62 then ('0' as int + i - 52) as char
    else if i == 62 then '+'
    else '/'
  }

  predicate IsAlphabetChar(c: char)
  {
    ('A' <= c <= 'Z') || ('a' <= c <= 'z') || ('0' <= c <= '9') || c == '+' || c == '/'
  }

  /** The six-bit value of an alphabet character, the inverse of Letter. */
  function ValueOf(c: char): (v: int)
    requires IsAlphabetChar(c)
    ensures 0 <= v < 64 && Letter(v) == c
  {
    if 'A' <= c <= 'Z' then c as int - 'A' as int
    else if 'a' <= c <= 'z' then c as int - 'a' as int + 26
    else if '0' <= c <= '9' then c as int - '0' as int + 52
    else if c == '+' then 62
    else 63
  }

  lemma ValueOfLetter(i: int)
    requires 0 <= i < 64
    ensures ValueOf(Letter(i)) == i
  {
  }

  /** The four characters that encode three bytes. */
  function Quad(a: int, b: int, c: int): (q: string)
    requires 0 <= a < 256 && 0 <= b < 256 && 0 <= c < 256
    ensures |q| == 4
  {
    [Letter(a / 4), Letter((a % 4) * 16 + b / 16), Letter((b % 16) * 4 + c / 64), Letter(c % 64)]
  }

  /** The encoding of a Latin-1 string before padding is appended. */
  function Unpadded(s: string): (e: string)
    requires IsLatin1(s)
    ensures forall i :: 0 <= i < |e| ==> IsAlphabetChar(e[i])
    decreases |s|
  {
    if |s| == 0 then ""
    else if |s| == 1 then
      var a := s[0] as int;
      [Letter(a / 4), Letter((a % 4) * 16)]
    else if |s| == 2 then
      var a, b := s[0] as int, s[1] as int;
      [Letter(a / 4), Letter((a % 4) * 16 + b / 16), Letter((b % 16) * 4)]
    else
      Quad(s[0] as int, s[1] as int, s[2] as int) + Unpadded(s[3..])
  }

  /** Every three bytes become four characters, a tail of one or two bytes two or three. */
  lemma {:induction false} UnpaddedLength(s: string)
    requires IsLatin1(s)
    ensures |Unpadded(s)| == 4 * (|s| / 3) + (if |s| % 3 == 0 then 0 else |s| % 3 + 1)
    decreases |s|
  {
    if |s| >= 3 {
      UnpaddedLength(s[3..]);
    }
  }

  /** The length of the unpadded encoding is never 1 modulo 4. */
  lemma {:induction false} UnpaddedTail(s: string)
    requires IsLatin1(s)
    ensures |Unpadded(s)| % 4 == (if |s| % 3 == 0 then 0 else |s| % 3 + 1)
    decreases |s|
  {
    if |s| >= 3 {
      var m := |Unpadded(s[3..])|;
      UnpaddedTail(s[3..]);
      UnpaddedStep(s);
      ModStep(|s|, m);
    } else if |s| == 1 {
      assert |Unpadded(s)| == 2;
    } else if |s| == 2 {
      assert |Unpadded(s)| == 3;
    }
  }

  /** Unfolds Unpadded once on an input of at least three bytes. */
  lemma UnpaddedStep(s: string)
    requires IsLatin1(s) && |s| >= 3
    ensures Unpadded(s) == Quad(s[0] as int, s[1] as int, s[2] as int) + Unpadded(s[3..])
  {
  }

  lemma ModStep(n: int, m: int)
    requires n >= 3
    ensures (4 + m) % 4 == m % 4 && n % 3 == (n - 3) % 3
  {
  }

  /** The `=` characters that bring the encoding to a multiple of four characters. */
  function Padding(n: nat): string
  {
    if n % 3 == 1 then "==" else if n % 3 == 2 then "=" else ""
  }

  /** `btoa(s)`: None stands for the InvalidCharacterError thrown on a non-Latin-1 string. */
  function Btoa(s: string): (r: Option<string>)
    ensures r.Some? <==> IsLatin1(s)
  {
    if IsLatin1(s) then Some(Unpadded(s) + Padding(|s|)) else None
  }

  /** The output of btoa has length 4 * ceil(n / 3) and uses only the alphabet and `=`. */
  lemma BtoaShape(s: string)
    requires IsLatin1(s)
    ensures |Btoa(s).value| == 4 * ((|s| + 2) / 3)
    ensures forall i :: 0 <= i < |Btoa(s).value| ==> IsAlphabetChar(Btoa(s).value[i]) || Btoa(s).value[i] == '='
  {
    var e := Btoa(s).value;
    assert e == Unpadded(s) + Padding(|s|);
    UnpaddedLength(s);
    forall i | 0 <= i < |e|
      ensures IsAlphabetChar(e[i]) || e[i] == '='
    {
      if i >= |Unpadded(s)| {
        assert e[i] == Padding(|s|)[i - |Unpadded(s)|];
      }
    }
  }

  /** Neither `.` nor any other character outside the alphabet and `=` appears in btoa's output. */
  lemma BtoaHasNoDot(s: string)
    requires IsLatin1(s)
    ensures '.' !in Btoa(s).value
  {
    BtoaShape(s);
  }

  /** ASCII white space as the Infra Standard defines it: TAB, LF, FF, CR and SPACE. */
  predicate IsAsciiWhitespace(c: char)
  {
    c == '\t' || c == '\n' || c as int == 0x0C || c == '\r' || c == ' '
  }

  function RemoveAsciiWhitespace(s: string): (r: string)
    ensures forall i :: 0 <= i < |r| ==> !IsAsciiWhitespace(r[i])
    ensures (forall i :: 0 <= i < |s| ==> !IsAsciiWhitespace(s[i])) ==> r == s
  {
    if |s| == 0 then ""
    else if IsAsciiWhitespace(s[0]) then RemoveAsciiWhitespace(s[1..])
    else [s[0]] + RemoveAsciiWhitespace(s[1..])
  }

  /** Removes one or two trailing `=` (applied only when the length is a multiple of four). */
  function StripPadding(s: string): (r: string)
    ensures |r| <= |s| && r == s[..|r|]
  {
    if |s| >= 2 && s[|s| - 1] == '=' && s[|s| - 2] == '=' then s[..|s| - 2]
    else if |s| >= 1 && s[|s| - 1] == '=' then s[..|s| - 1]
    else s
  }

  /** Decodes alphabet characters six bits at a time, dropping the leftover bits of a short tail. */
  function DecodeChars(d: string): (r: string)
    requires |d| % 4 != 1
    requires forall i :: 0 <= i < |d| ==> IsAlphabetChar(d[i])
    ensures IsLatin1(r)
    decreases |d|
  {
    if |d| == 0 then ""
    else if |d| == 2 then
      var w, x := ValueOf(d[0]), ValueOf(d[1]);
      [(w * 4 + x / 16) as char]
    else if |d| == 3 then
      var w, x, y := ValueOf(d[0]), ValueOf(d[1]), ValueOf(d[2]);
      [(w * 4 + x / 16) as char, ((x % 16) * 16 + y / 4) as char]
    else
      var w, x, y, z := ValueOf(d[0]), ValueOf(d[1]), ValueOf(d[2]), ValueOf(d[3]);
      [(w * 4 + x / 16) as char, ((x % 16) * 16 + y / 4) as char, ((y % 4) * 64 + z) as char]
      + DecodeChars(d[4..])
  }

  /**
   * `atob(data)`: None stands for the InvalidCharacterError thrown when the
   * forgiving-base64 decode fails (a length of 1 modulo 4 after the padding
   * is removed, or a character outside the alphabet).
   */
  function Atob(data: string): (r: Option<string>)
    ensures r.Some? ==> IsLatin1(r.value)
  {
    var d := RemoveAsciiWhitespace(data);
    var d' := if |d| % 4 == 0 then StripPadding(d) else d;
    if |d'| % 4 == 1 then None
    else if exists i :: 0 <= i < |d'| && !IsAlphabetChar(d'[i]) then None
    else Some(DecodeChars(d'))
  }

  /** The bit arithmetic of one group: the three bytes come back out of their four letters. */
  lemma QuadBits(a: int, b: int, c: int)
    requires 0 <= a < 256 && 0 <= b < 256 && 0 <= c < 256
    ensures var x := (a % 4) * 16 + b / 16; a / 4 * 4 + x / 16 == a && (x % 16) * 16 == b / 16 * 16
    ensures var y := (b % 16) * 4 + c / 64; (a % 4 * 16 + b / 16) % 16 * 16 + y / 4 == b && (y % 4) * 64 + c % 64 == c
  {
    var x := (a % 4) * 16 + b / 16;
    assert x / 16 == a % 4 && x % 16 == b / 16;
    var y := (b % 16) * 4 + c / 64;
    assert y / 4 == b % 16 && y % 4 == c / 64;
  }

  /** One full group decodes to its three bytes, whatever follows it. */
  lemma QuadDecodes(a: int, b: int, c: int, rest: string)
    requires 0 <= a < 256 && 0 <= b < 256 && 0 <= c < 256
    requires |rest| % 4 != 1
    requires forall i :: 0 <= i < |rest| ==> IsAlphabetChar(rest[i])
    ensures DecodeChars(Quad(a, b, c) + rest) == [a as char, b as char, c as char] + DecodeChars(rest)
  {
    var d := Quad(a, b, c) + rest;
    var x, y := (a % 4) * 16 + b / 16, (b % 16) * 4 + c / 64;
    QuadLetters(a, b, c, rest);
    QuadBits(a, b, c);
    DecodeGroup(d, a, b, c);
  }

  /** The letters of a group, read back, are the six-bit values they were made from. */
  lemma QuadLetters(a: int, b: int, c: int, rest: string)
    requires 0 <= a < 256 && 0 <= b < 256 && 0 <= c < 256
    requires |rest| % 4 != 1
    requires forall i :: 0 <= i < |rest| ==> IsAlphabetChar(rest[i])
    ensures var d := Quad(a, b, c) + rest;
      |d| >= 4 && |d| % 4 != 1 && (forall i :: 0 <= i < |d| ==> IsAlphabetChar(d[i])) && d[4..] == rest &&
      ValueOf(d[0]) == a / 4 && ValueOf(d[1]) == (a % 4) * 16 + b / 16 &&
      ValueOf(d[2]) == (b % 16) * 4 + c / 64 && ValueOf(d[3]) == c % 64
  {
    var q := Quad(a, b, c);
    var d := q + rest;
    assert d[4..] == rest;
    ValueOfLetter(a / 4);
    ValueOfLetter((a % 4) * 16 + b / 16);
    ValueOfLetter((b % 16) * 4 + c / 64);
    ValueOfLetter(c % 64);
    assert d[0] == q[0] && d[1] == q[1] && d[2] == q[2] && d[3] == q[3];
  }

  /** Unfolds DecodeChars once on an input of at least one full group whose letters carry the bytes a, b, c. */
  lemma DecodeGroup(d: string, a: int, b: int, c: int)
    requires |d| >= 4 && |d| % 4 != 1
    requires forall i :: 0 <= i < |d| ==> IsAlphabetChar(d[i])
    requires ValueOf(d[0]) * 4 + ValueOf(d[1]) / 16 == a
    requires (ValueOf(d[1]) % 16) * 16 + ValueOf(d[2]) / 4 == b
    requires (ValueOf(d[2]) % 4) * 64 + ValueOf(d[3]) == c
    ensures DecodeChars(d) == [a as char, b as char, c as char] + DecodeChars(d[4..])
  {
  }

  /** A one-byte tail: two letters carry its eight bits. */
  lemma OneByteDecodes(s: string)
    requires IsLatin1(s) && |s| == 1
    ensures DecodeChars(Unpadded(s)) == s
  {
    var a := s[0] as int;
    var e := Unpadded(s);
    ValueOfLetter(a / 4);
    ValueOfLetter((a % 4) * 16);
    assert e[0] == Letter(a / 4) && e[1] == Letter((a % 4) * 16);
    QuadBits(a, 0, 0);
    DecodePair(e, a);
    assert s == [a as char];
  }

  /** A two-byte tail: three letters carry its sixteen bits. */
  lemma TwoBytesDecode(s: string)
    requires IsLatin1(s) && |s| == 2
    ensures DecodeChars(Unpadded(s)) == s
  {
    var a, b := s[0] as int, s[1] as int;
    var e := Unpadded(s);
    ValueOfLetter(a / 4);
    ValueOfLetter((a % 4) * 16 + b / 16);
    ValueOfLetter((b % 16) * 4);
    assert e[0] == Letter(a / 4) && e[1] == Letter((a % 4) * 16 + b / 16) && e[2] == Letter((b % 16) * 4);
    QuadBits(a, b, 0);
    DecodeTriple(e, a, b);
    assert s == [a as char, b as char];
  }

  /** Two letters carrying the byte a decode to it. */
  lemma DecodePair(d: string, a: int)
    requires |d| == 2 && IsAlphabetChar(d[0]) && IsAlphabetChar(d[1])
    requires ValueOf(d[0]) * 4 + ValueOf(d[1]) / 16 == a
    ensures DecodeChars(d) == [a as char]
  {
  }

  /** Three letters carrying the bytes a and b decode to them. */
  lemma DecodeTriple(d: string, a: int, b: int)
    requires |d| == 3 && IsAlphabetChar(d[0]) && IsAlphabetChar(d[1]) && IsAlphabetChar(d[2])
    requires ValueOf(d[0]) * 4 + ValueOf(d[1]) / 16 == a
    requires (ValueOf(d[1]) % 16) * 16 + ValueOf(d[2]) / 4 == b
    ensures DecodeChars(d) == [a as char, b as char]
  {
  }

  /** DecodeChars inverts the unpadded encoding. */
  lemma {:induction false} DecodeUnpadded(s: string)
    requires IsLatin1(s)
    ensures |Unpadded(s)| % 4 != 1
    ensures DecodeChars(Unpadded(s)) == s
    decreases |s|
  {
    UnpaddedTail(s);
    if |s| == 1 {
      OneByteDecodes(s);
    } else if |s| == 2 {
      TwoBytesDecode(s);
    } else if |s| >= 3 {
      var rest := s[3..];
      DecodeUnpadded(rest);
      UnpaddedStep(s);
      QuadDecodes(s[0] as int, s[1] as int, s[2] as int, Unpadded(rest));
      Regroup(s);
    }
  }

  lemma Regroup(s: string)
    requires |s| >= 3
    ensures s == [s[0] as int as char, s[1] as int as char, s[2] as int as char] + s[3..]
  {
  }

  /** The padding btoa appends is exactly what the forgiving decode strips. */
  lemma StripBtoaPadding(s: string)
    requires IsLatin1(s)
    ensures StripPadding(Btoa(s).value) == Unpadded(s)
  {
    var u := Unpadded(s);
    var e := Btoa(s).value;
    assert e == u + Padding(|s|);
    UnpaddedTail(s);
    if |s| % 3 == 0 {
      assert e == u;
      StripNothing(u);
    } else if |s| % 3 == 1 {
      assert e == u + "==";
      StripTwo(u);
    } else {
      assert e == u + "=";
      StripOne(u);
    }
  }

  lemma MultipleOfFour(n: int)
    ensures (4 * n) % 4 == 0
  {
  }

  lemma StripNothing(u: string)
    requires forall i :: 0 <= i < |u| ==> IsAlphabetChar(u[i])
    ensures StripPadding(u) == u
  {
    assert u != [] ==> IsAlphabetChar(u[|u| - 1]);
  }

  lemma StripTwo(u: string)
    ensures StripPadding(u + "==") == u
  {
    var e := u + "==";
    assert e[|e| - 1] == '=' && e[|e| - 2] == '=';
    assert e[..|e| - 2] == u;
  }

  lemma StripOne(u: string)
    requires |u| >= 1 && IsAlphabetChar(u[|u| - 1])
    ensures StripPadding(u + "=") == u
  {
    var e := u + "=";
    assert e[|e| - 1] == '=' && e[|e| - 2] == u[|u| - 1];
    assert e[..|e| - 1] == u;
  }

  /** atob inverts btoa: every string btoa accepts comes back unchanged. */
  lemma AtobBtoa(s: string)
    requires IsLatin1(s)
    ensures Atob(Btoa(s).value) == Some(s)
  {
    var u := Unpadded(s);
    var e := Btoa(s).value;
    BtoaShape(s);
    MultipleOfFour((|s| + 2) / 3);
    assert RemoveAsciiWhitespace(e) == e by {
      forall i | 0 <= i < |e| ensures !IsAsciiWhitespace(e[i]) { }
    }
    StripBtoaPadding(s);
    DecodeUnpadded(s);
    assert !exists i :: 0 <= i < |u| && !IsAlphabetChar(u[i]);
  }
}
