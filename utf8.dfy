/**
 * UTF-8, the byte encoding `TextEncoder` produces and `decodeURIComponent`
 * reads back (section 3 of RFC 3629).
 */
module Utf8 {
  import opened Wrappers

  /** The one to four bytes of a Unicode scalar value. */
  function EncodeChar(c: char): (bytes: seq<int>)
    ensures 1 <= |bytes| <= 4
    ensures forall i :: 0 <= i < |bytes| ==> 0 <= bytes[i] < 256
    ensures (|bytes| == 1) == (c as int < 0x80)
  {
    var v := c as int;
    if v < 0x80 then [v]
    else if v < 0x800 then [0xC0 + v / 64, 0x80 + v % 64]
    else if v < 0x10000 then [0xE0 + v / 4096, 0x80 + (v / 64) % 64, 0x80 + v % 64]
    else [0xF0 + v / 262144, 0x80 + (v / 4096) % 64, 0x80 + (v / 64) % 64, 0x80 + v % 64]
  }

  /** `new TextEncoder().encode(s)`. */
  function Encode(s: string): (bytes: seq<int>)
    ensures forall i :: 0 <= i < |bytes| ==> 0 <= bytes[i] < 256
    ensures |bytes| >= |s|
  {
    if |s| == 0 then [] else EncodeChar(s[0]) + Encode(s[1..])
  }

  /** ASCII text encodes byte for byte. */
  lemma {:induction false} EncodeAscii(s: string)
    requires forall i :: 0 <= i < |s| ==> s[i] as int < 0x80
    ensures |Encode(s)| == |s|
    ensures forall i :: 0 <= i < |s| ==> Encode(s)[i] == s[i] as int
  {
    if |s| > 0 {
      EncodeAscii(s[1..]);
    }
  }

  /** The number of leading one bits of a byte, which announces the length of a sequence. */
  function LeadingOnes(b: int): (n: nat)
    requires 0 <= b < 256
    ensures n <= 8
  {
    if b < 0x80 then 0
    else if b < 0xC0 then 1
    else if b < 0xE0 then 2
    else if b < 0xF0 then 3
    else if b < 0xF8 then 4
    else if b < 0xFC then 5
    else if b < 0xFE then 6
    else if b < 0xFF then 7
    else 8
  }

  predicate IsContinuation(b: int)
  {
    0x80 <= b < 0xC0
  }

  /**
   * The code point of a multi-byte sequence, or None when the bytes are not a
   * valid UTF-8 encoding of one scalar value (a bad continuation byte, an
   * overlong form, a surrogate, or a value above U+10FFFF).
   */
  function DecodeSequence(octets: seq<int>): (r: Option<char>)
    requires 2 <= |octets| <= 4
    requires forall i :: 0 <= i < |octets| ==> 0 <= octets[i] < 256
    requires LeadingOnes(octets[0]) == |octets|
  {
    if exists i :: 1 <= i < |octets| && !IsContinuation(octets[i]) then None
    else if |octets| == 2 then
      var v := (octets[0] - 0xC0) * 64 + (octets[1] - 0x80);
      if v < 0x80 then None else Some(v as char)
    else if |octets| == 3 then
      var v := (octets[0] - 0xE0) * 4096 + (octets[1] - 0x80) * 64 + (octets[2] - 0x80);
      if v < 0x800 || (0xD800 <= v < 0xE000) then None else Some(v as char)
    else
      var v := (octets[0] - 0xF0) * 262144 + (octets[1] - 0x80) * 4096 + (octets[2] - 0x80) * 64 + (octets[3] - 0x80);
      if v < 0x10000 || v > 0x10FFFF then None else Some(v as char)
  }

  /** Every multi-byte encoding decodes back to its character. */
  lemma DecodeEncodeChar(c: char)
    requires c as int >= 0x80
    ensures LeadingOnes(EncodeChar(c)[0]) == |EncodeChar(c)|
    ensures DecodeSequence(EncodeChar(c)) == Some(c)
  {
    var v := c as int;
    var e := EncodeChar(c);
    if v < 0x800 {
      assert (v / 64) * 64 + v % 64 == v;
    } else if v < 0x10000 {
      assert v / 64 == (v / 4096) * 64 + (v / 64) % 64;
      assert (v / 64) * 64 + v % 64 == v;
    } else {
      assert v / 4096 == (v / 262144) * 64 + (v / 4096) % 64;
      assert v / 64 == (v / 4096) * 64 + (v / 64) % 64;
      assert (v / 64) * 64 + v % 64 == v;
    }
  }
}
