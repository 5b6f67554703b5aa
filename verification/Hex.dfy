/** Hexadecimal and decimal text. */
module Hex {
  import opened ReportTypes

  type Byte = n: int | 0 <= n < 256

  function HexDigit(c: char): (d: Option<nat>)
    ensures d.Some? ==> d.value < 16
  {
    if '0' <= c <= '9' then Some(c as int - '0' as int)
    else if 'a' <= c <= 'f' then Some(c as int - 'a' as int + 10)
    else if 'A' <= c <= 'F' then Some(c as int - 'A' as int + 10)
    else None
  }

  function HexOf(n: nat): (c: char)
    requires n < 16
    ensures HexDigit(c) == Some(n)
  {
    if n < 10 then (n + '0' as int) as char else (n - 10 + 'a' as int) as char
  }

  /** The sixteen digits, written in lower case and read in either. */
  lemma Alphabet(n: nat)
    requires n < 16
    ensures HexOf(n) == "0123456789abcdef"[n]
    ensures HexDigit("0123456789abcdef"[n]) == HexDigit("0123456789ABCDEF"[n]) == Some(n)
    ensures forall c :: HexDigit(c) == Some(n) ==> c == "0123456789abcdef"[n] || c == "0123456789ABCDEF"[n]
  {
  }

  /** Two lower-case digits a byte. */
  function Encode(bytes: seq<Byte>): string {
    if bytes == [] then "" else [HexOf(bytes[0] / 16), HexOf(bytes[0] % 16)] + Encode(bytes[1..])
  }

  /** Either case is read; an odd digit or a stranger is an error. */
  function Decode(s: string): Option<seq<Byte>> {
    if s == [] then Some([])
    else if |s| == 1 then None
    else match (HexDigit(s[0]), HexDigit(s[1]), Decode(s[2..]))
      case (Some(hi), Some(lo), Some(rest)) => Some([hi * 16 + lo] + rest)
      case _ => None
  }

  lemma {:induction false} RoundTrip(bytes: seq<Byte>)
    ensures Decode(Encode(bytes)) == Some(bytes)
  {
    if bytes != [] {
      RoundTrip(bytes[1..]);
      assert Encode(bytes)[2..] == Encode(bytes[1..]);
      assert bytes == [bytes[0]] + bytes[1..];
    }
  }

  /** The high digit of a byte comes first. */
  lemma {:induction false} DigitsOfByte(bytes: seq<Byte>, i: nat)
    requires i < |bytes|
    ensures |Encode(bytes)| == 2 * |bytes|
    ensures Encode(bytes)[2 * i..2 * i + 2] == [HexOf(bytes[i] / 16), HexOf(bytes[i] % 16)]
  {
    EncodeLength(bytes);
    if i > 0 {
      DigitsOfByte(bytes[1..], i - 1);
      assert Encode(bytes)[2 * i..2 * i + 2] == Encode(bytes[1..])[2 * (i - 1)..2 * (i - 1) + 2];
    }
  }

  lemma EncodeLength(bytes: seq<Byte>)
    ensures |Encode(bytes)| == 2 * |bytes|
  {
  }

  /** Only hex digits decode, and encoding writes nothing else. */
  lemma {:induction false} OnlyDigits(s: string)
    ensures Decode(s).Some? ==> forall i :: 0 <= i < |s| ==> HexDigit(s[i]).Some?
  {
    if |s| >= 2 {
      OnlyDigits(s[2..]);
      assert s == s[..2] + s[2..];
    }
  }

  lemma EncodeOnlyDigits(bytes: seq<Byte>)
    ensures forall i :: 0 <= i < |Encode(bytes)| ==> HexDigit(Encode(bytes)[i]).Some?
  {
    RoundTrip(bytes);
    OnlyDigits(Encode(bytes));
  }

  // ---- decimal ---------------------------------------------------------------------------

  const I64_MIN := -0x8000_0000_0000_0000
  const I64_MAX := 0x7FFF_FFFF_FFFF_FFFF

  predicate IsDigit(c: char) {
    '0' <= c <= '9'
  }

  function Digits(n: nat): (s: string)
    ensures s != [] && forall i :: 0 <= i < |s| ==> IsDigit(s[i])
  {
    var last := [(n % 10 + '0' as int) as char];
    if n < 10 then last else Digits(n / 10) + last
  }

  function Show(n: int): string {
    if n < 0 then "-" + Digits(-n) else Digits(n)
  }

  function Value(s: string): Option<nat> {
    if s == [] then Some(0)
    else
      var k := |s| - 1;
      match Value(s[..k])
      case None => None
      case Some(v) => if IsDigit(s[k]) then Some(v * 10 + (s[k] as int - '0' as int)) else None
  }

  /** An optional sign and at least one digit, within 64 bits. */
  function ParseI64(s: string): Option<int> {
    var signed := s != [] && (s[0] == '-' || s[0] == '+');
    var digits := if signed then s[1..] else s;
    if digits == [] then None
    else match Value(digits)
      case None => None
      case Some(v) =>
        var n := (if signed && s[0] == '-' then -1 else 1) * v;
        if I64_MIN <= n <= I64_MAX then Some(n) else None
  }

  lemma {:induction false} DigitsValue(n: nat)
    ensures Value(Digits(n)) == Some(n)
  {
    var s := Digits(n);
    var k := |s| - 1;
    if n < 10 {
      assert s[..k] == [];
    } else {
      DigitsValue(n / 10);
      assert s[..k] == Digits(n / 10);
    }
  }

  lemma ShowRoundTrip(n: int)
    ensures ParseI64(Show(n)) == if I64_MIN <= n <= I64_MAX then Some(n) else None
  {
    hide Value, Digits;
    if n < 0 {
      DigitsValue(-n);
      assert Show(n)[1..] == Digits(-n);
    } else {
      DigitsValue(n);
    }
  }
}
