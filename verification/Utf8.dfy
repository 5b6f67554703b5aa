/** The UTF-8 encoding, and that different strings have different bytes. */
module Utf8 {
  import opened Hex

  /** The UTF-8 encoding of one character. */
  function EncodeChar(c: char): seq<Byte> {
    var n := c as int;
    if n < 0x80 then [n]
    else if n < 0x800 then [0xC0 + n / 64, 0x80 + n % 64]
    else if n < 0x1_0000 then [0xE0 + n / 4096, 0x80 + n / 64 % 64, 0x80 + n % 64]
    else [0xF0 + n / 262144, 0x80 + n / 4096 % 64, 0x80 + n / 64 % 64, 0x80 + n % 64]
  }

  function Encode(s: string): seq<Byte> {
    if s == [] then [] else EncodeChar(s[0]) + Encode(s[1..])
  }

  /** How many bytes a lead byte announces. */
  function Announced(b: Byte): nat {
    if b < 0x80 then 1 else if b < 0xE0 then 2 else if b < 0xF0 then 3 else 4
  }

  function CodePoint(s: seq<Byte>): int
    requires s != [] && Announced(s[0]) <= |s|
  {
    var lead := s[0] as int;
    match Announced(s[0])
    case 1 => lead
    case 2 => (lead - 0xC0) * 64 + Tail(s[1])
    case 3 => (lead - 0xE0) * 4096 + Tail(s[1]) * 64 + Tail(s[2])
    case _ => (lead - 0xF0) * 262144 + Tail(s[1]) * 4096 + Tail(s[2]) * 64 + Tail(s[3])
  }

  /** The six bits of a continuation byte. */
  function Tail(b: Byte): int {
    b as int - 0x80
  }

  lemma Base64Digits(n: nat)
    ensures n == n / 64 * 64 + n % 64
    ensures n == n / 4096 * 4096 + n / 64 % 64 * 64 + n % 64
    ensures n == n / 262144 * 262144 + n / 4096 % 64 * 4096 + n / 64 % 64 * 64 + n % 64
  {
    assert n / 64 / 64 == n / 4096 && n / 4096 / 64 == n / 262144;
  }

  /** The head of an encoding says which character it is. */
  lemma HeadReads(c: char, rest: seq<Byte>)
    ensures var s := EncodeChar(c) + rest;
      Announced(s[0]) == |EncodeChar(c)| <= |s| && CodePoint(s) == c as int && s[|EncodeChar(c)|..] == rest
  {
    Base64Digits(c as int);
  }

  lemma PrefixFree(c: char, d: char, x: seq<Byte>, y: seq<Byte>)
    requires EncodeChar(c) + x == EncodeChar(d) + y
    ensures c == d && x == y
  {
    hide EncodeChar, CodePoint;
    HeadReads(c, x);
    HeadReads(d, y);
  }

  lemma {:induction false} Injective(s: string, t: string)
    ensures Encode(s) == Encode(t) <==> s == t
  {
    if Encode(s) == Encode(t) && s != [] && t != [] {
      PrefixFree(s[0], t[0], Encode(s[1..]), Encode(t[1..]));
      Injective(s[1..], t[1..]);
      assert s == [s[0]] + s[1..] && t == [t[0]] + t[1..];
    }
  }

  /** A character takes as many bytes as RFC 3629 gives its code point. */
  lemma Length(s: string)
    requires s != []
    ensures |Encode(s)| == |Encode(s[1..])|
                           + (if s[0] as int < 0x80 then 1 else if s[0] as int < 0x800 then 2
                              else if s[0] as int < 0x1_0000 then 3 else 4)
  {
  }
}
