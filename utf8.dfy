/**
  UTF-8 as defined by the Unicode Standard (section 3.9, table 3-7 of well-formed
  byte sequences): Python's `str.encode('utf-8')` on the server side and Rust's
  `String::from_utf8` check on the client side.
*/
module Utf8 {
  import opened Common

  predicate InRange(b: uint8, lo: int, hi: int) { lo <= b <= hi }

  /**
    The length of the well-formed sequence of one to four bytes at the start of
    `bs`, or 0 when `bs` does not start with one.
  */
  function CharLen(bs: seq<uint8>): (n: nat)
    ensures n <= 4 && n <= |bs|
  {
    if |bs| == 0 then 0
    else if bs[0] <= 0x7F then 1
    else if |bs| < 2 then 0
    else if InRange(bs[0], 0xC2, 0xDF) then
      (if InRange(bs[1], 0x80, 0xBF) then 2 else 0)
    else if |bs| < 3 then 0
    else if InRange(bs[0], 0xE0, 0xEF) then
      var lo := if bs[0] == 0xE0 then 0xA0 else 0x80;
      var hi := if bs[0] == 0xED then 0x9F else 0xBF;
      (if InRange(bs[1], lo, hi) && InRange(bs[2], 0x80, 0xBF) then 3 else 0)
    else if |bs| < 4 then 0
    else if InRange(bs[0], 0xF0, 0xF4) then
      var lo := if bs[0] == 0xF0 then 0x90 else 0x80;
      var hi := if bs[0] == 0xF4 then 0x8F else 0xBF;
      (if InRange(bs[1], lo, hi) && InRange(bs[2], 0x80, 0xBF) && InRange(bs[3], 0x80, 0xBF)
       then 4 else 0)
    else 0
  }

  /** A byte string is valid UTF-8 when it is a succession of well-formed sequences. */
  predicate Valid(bs: seq<uint8>)
    decreases |bs|
  {
    bs == [] || (CharLen(bs) > 0 && Valid(bs[CharLen(bs)..]))
  }

  function Continuation(v: int): uint8
    requires 0 <= v
  {
    0x80 + v % 0x40
  }

  /** How many bytes the encoding of a scalar value takes. */
  function Width(c: char): nat {
    if c as int < 0x80 then 1 else if c as int < 0x800 then 2 else if c as int < 0x10000 then 3 else 4
  }

  /** The encoding of one Unicode scalar value. */
  function EncodeChar(c: char): (bs: seq<uint8>)
    ensures |bs| == Width(c)
  {
    var cp := c as int;
    if cp < 0x80 then [cp]
    else if cp < 0x800 then [0xC0 + cp / 0x40, Continuation(cp)]
    else if cp < 0x10000 then [0xE0 + cp / 0x1000, Continuation(cp / 0x40), Continuation(cp)]
    else [0xF0 + cp / 0x40000, Continuation(cp / 0x1000), Continuation(cp / 0x40), Continuation(cp)]
  }

  function Encode(s: string): seq<uint8> {
    if s == [] then [] else EncodeChar(s[0]) + Encode(s[1..])
  }

  /** The length of a string's encoding, counted without encoding it. */
  function EncodedLength(s: string): nat {
    if s == [] then 0 else Width(s[0]) + EncodedLength(s[1..])
  }

  lemma {:induction false} EncodeLength(s: string)
    ensures |Encode(s)| == EncodedLength(s)
  {
    if s != [] {
      EncodeLength(s[1..]);
    }
  }

  /** At most four bytes a character. */
  lemma {:induction false} EncodedLengthBound(s: string)
    ensures |s| <= EncodedLength(s) <= 4 * |s|
  {
    if s != [] {
      EncodedLengthBound(s[1..]);
    }
  }

  /** Each encoded character is read back as one well-formed sequence of its own length. */
  lemma EncodeCharWellFormed(c: char, rest: seq<uint8>)
    ensures CharLen(EncodeChar(c) + rest) == |EncodeChar(c)|
  {
    var cp := c as int;
    var bs := EncodeChar(c) + rest;
    if cp < 0x80 {
    } else if cp < 0x800 {
      assert bs[0] == 0xC0 + cp / 0x40;
      assert 0xC2 <= bs[0] <= 0xDF;
    } else if cp < 0x10000 {
      assert bs[0] == 0xE0 + cp / 0x1000;
      assert bs[1] == 0x80 + (cp / 0x40) % 0x40;
      assert cp < 0xD800 || 0xE000 <= cp;
      if bs[0] == 0xE0 {
        assert cp / 0x40 >= 0x20;
      }
      if bs[0] == 0xED {
        assert cp < 0xD800;
        assert (cp / 0x40) % 0x40 < 0x20;
      }
    } else {
      assert cp < 0x110000;
      assert bs[0] == 0xF0 + cp / 0x40000;
      assert bs[1] == 0x80 + (cp / 0x1000) % 0x40;
      if bs[0] == 0xF0 {
        assert (cp / 0x1000) % 0x40 >= 0x10;
      }
      if bs[0] == 0xF4 {
        assert (cp / 0x1000) % 0x40 < 0x10;
      }
    }
  }

  /** Whatever Python encodes, Rust's UTF-8 check accepts. */
  lemma {:induction false} EncodeValid(s: string)
    ensures Valid(Encode(s))
  {
    if s != [] {
      var head := EncodeChar(s[0]);
      var rest := Encode(s[1..]);
      EncodeCharWellFormed(s[0], rest);
      assert (head + rest)[|head|..] == rest;
      EncodeValid(s[1..]);
    }
  }
}
