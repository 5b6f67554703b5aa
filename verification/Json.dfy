/** Arrays of strings in JSON: the grammar of sections 5 and 7 of RFC 8259 as a reader, and
    writers that leave the choice of escapes open. */
module Json {
  import opened ReportTypes
  import opened Hex

  /** How a writer spells what stands between the quotes of a string. */
  type Escape = string -> string

  function Hex4(s: string): (n: Option<nat>)
    requires |s| == 4
    ensures n.Some? ==> n.value < 0x1_0000
  {
    var a, b, c, d := HexDigit(s[0]), HexDigit(s[1]), HexDigit(s[2]), HexDigit(s[3]);
    if a.Some? && b.Some? && c.Some? && d.Some?
    then Some(((a.value * 16 + b.value) * 16 + c.value) * 16 + d.value) else None
  }

  /** The two-character escapes of section 7. */
  function ShortEscape(c: char): Option<char> {
    if c == '"' || c == '\\' || c == '/' then Some(c)
    else if c == 'b' then Some(8 as char)
    else if c == 'f' then Some(12 as char)
    else if c == 'n' then Some(10 as char)
    else if c == 'r' then Some(13 as char)
    else if c == 't' then Some(9 as char)
    else None
  }

  /** One `\uXXXX`, or a surrogate pair of them, at the head of `s`. */
  function ReadUnicode(s: string): (r: Option<(char, nat)>)
    ensures r.Some? ==> 1 <= r.value.1 <= |s|
  {
    if |s| < 6 then None
    else match Hex4(s[2..6])
      case None => None
      case Some(n) =>
        if n < 0xD800 || n >= 0xE000 then Some((n as char, 6))
        else if n < 0xDC00 && |s| >= 12 && s[6] == '\\' && s[7] == 'u' then
          match Hex4(s[8..12])
          case None => None
          case Some(m) =>
            if 0xDC00 <= m < 0xE000
            then Some(((0x1_0000 + (n - 0xD800) * 0x400 + (m - 0xDC00)) as char, 12)) else None
        else None
  }

  /** The character spelled at the head of `s` and the length of its spelling; nothing at the
      closing quote, at a bare control character or at a malformed escape. */
  function ReadChar(s: string): (r: Option<(char, nat)>)
    ensures r.Some? ==> 1 <= r.value.1 <= |s| && s[0] != '"'
  {
    if s == [] || s[0] == '"' || s[0] < ' ' then None
    else if s[0] != '\\' then Some((s[0], 1))
    else if |s| < 2 then None
    else if s[1] == 'u' then ReadUnicode(s)
    else match ShortEscape(s[1])
      case None => None
      case Some(c) => Some((c, 2))
  }

  /** The rest of a string, its opening quote read: the content and what follows it. */
  function ReadString(s: string): (r: Option<(string, string)>)
    ensures r.Some? ==> |r.value.1| < |s|
    decreases |s|
  {
    if s == [] then None
    else if s[0] == '"' then Some(("", s[1..]))
    else match ReadChar(s)
      case None => None
      case Some(cn) =>
        match ReadString(s[cn.1..])
        case None => None
        case Some(tr) => Some(([cn.0] + tr.0, tr.1))
  }

  /** Whatever is spelled is read back by the grammar, up to the quote that closes it. */
  ghost predicate Conforming(esc: Escape) {
    forall t, rest: string :: ReadString(esc(t) + ['"'] + rest) == Some((t, rest))
  }

  /** The elements of an array of strings up to its closing bracket. */
  function ReadElements(s: string): (r: Option<(seq<string>, string)>)
    ensures r.Some? ==> |r.value.1| < |s|
    decreases |s|
  {
    if s == [] || s[0] != '"' then None
    else match ReadString(s[1..])
      case None => None
      case Some(fr) =>
        if fr.1 == [] then None
        else if fr.1[0] == ']' then Some(([fr.0], fr.1[1..]))
        else if fr.1[0] != ',' then None
        else match ReadElements(fr.1[1..])
          case None => None
          case Some(gr) => Some(([fr.0] + gr.0, gr.1))
  }

  function ReadArray(s: string): (r: Option<(seq<string>, string)>)
    ensures r.Some? ==> |r.value.1| < |s|
  {
    if s == [] || s[0] != '[' then None
    else if |s| > 1 && s[1] == ']' then Some(([], s[2..]))
    else ReadElements(s[1..])
  }

  // ---- writing ---------------------------------------------------------------------------

  function WriteElements(esc: Escape, fs: seq<string>): string
    requires fs != []
  {
    ['"'] + esc(fs[0]) + ['"']
    + if |fs| == 1 then "]" else "," + WriteElements(esc, fs[1..])
  }

  function WriteArray(esc: Escape, fs: seq<string>): string {
    "[" + if fs == [] then "]" else WriteElements(esc, fs)
  }

  // ---- reading back -------------------------------------------------------------------------

  /** Reading one quoted element leaves what follows its closing quote. */
  lemma FirstElement(esc: Escape, f: string, tail: string)
    requires Conforming(esc)
    ensures var s := ['"'] + esc(f) + ['"'] + tail; s[0] == '"' && ReadString(s[1..]) == Some((f, tail))
  {
    var s := ['"'] + esc(f) + ['"'] + tail;
    assert s[1..] == esc(f) + ['"'] + tail;
  }

  lemma {:induction false} ElementsRoundTrip(esc: Escape, fs: seq<string>, rest: string)
    requires Conforming(esc) && fs != []
    ensures ReadElements(WriteElements(esc, fs) + rest) == Some((fs, rest))
  {
    hide ReadString, Conforming;
    var s := WriteElements(esc, fs) + rest;
    var head := ['"'] + esc(fs[0]) + ['"'];
    if |fs| == 1 {
      var tail := [']'] + rest;
      assert s == head + tail;
      FirstElement(esc, fs[0], tail);
      assert tail[1..] == rest && fs == [fs[0]];
    } else {
      var more := WriteElements(esc, fs[1..]) + rest;
      var tail := [','] + more;
      assert s == head + tail;
      FirstElement(esc, fs[0], tail);
      assert tail[1..] == more;
      ElementsRoundTrip(esc, fs[1..], rest);
      assert fs == [fs[0]] + fs[1..];
    }
  }

  /** What is written is read back, whatever the fields hold and whatever follows. */
  lemma ArrayRoundTrip(esc: Escape, fs: seq<string>, rest: string)
    requires Conforming(esc)
    ensures ReadArray(WriteArray(esc, fs) + rest) == Some((fs, rest))
  {
    var s := WriteArray(esc, fs) + rest;
    if fs == [] {
      assert s == ['[', ']'] + rest;
    } else {
      var tail := WriteElements(esc, fs) + rest;
      assert s == ['['] + tail;
      assert s[0] == '[' && s[1..] == tail && s[1] == '"';
      ElementsRoundTrip(esc, fs, rest);
    }
  }

  // ---- writers that conform ---------------------------------------------------------------------

  /** How a character is spelled behind another one; the first stands behind `0 as char`. */
  type Spelling = (char, char) -> string

  /** Every character is spelled in one of the ways section 7 allows for it, whatever it stands
      behind. */
  ghost predicate Allowed(spell: Spelling) {
    forall b, c :: ReadChar(spell(b, c)) == Some((c, |spell(b, c)|))
  }

  function Spelled(spell: Spelling, before: char, t: string): string
    decreases |t|
  {
    if t == [] then "" else spell(before, t[0]) + Spelled(spell, t[0], t[1..])
  }

  /** The writer that spells character by character. */
  function Writer(spell: Spelling): Escape {
    (t: string) => Spelled(spell, 0 as char, t)
  }

  /** A spelling is recognised whatever follows it. */
  lemma ReadCharPrefix(s: string, rest: string)
    requires ReadChar(s).Some? && ReadChar(s).value.1 == |s|
    ensures ReadChar(s + rest) == ReadChar(s)
  {
    var t := s + rest;
    assert forall i :: 0 <= i < |s| ==> t[i] == s[i];
    hide Hex4, ShortEscape;
    if |s| >= 2 && s[0] == '\\' && s[1] == 'u' {
      assert |s| == 6 || |s| == 12;
      assert t[2..6] == s[2..6];
      if |s| == 12 {
        assert t[8..12] == s[8..12];
      }
    }
  }

  /** Reading one spelling leaves the rest of the string to be read. */
  lemma ReadStep(e: string, c: char, tail: string)
    requires ReadChar(e) == Some((c, |e|))
    ensures ReadString(tail).Some? ==>
      ReadString(e + tail) == Some(([c] + ReadString(tail).value.0, ReadString(tail).value.1))
  {
    ReadCharPrefix(e, tail);
    var s := e + tail;
    assert s[0] == e[0] && s[|e|..] == tail;
    hide ReadChar;
  }

  lemma {:induction false} SpelledReads(spell: Spelling, before: char, t: string, rest: string)
    requires Allowed(spell)
    ensures ReadString(Spelled(spell, before, t) + ['"'] + rest) == Some((t, rest))
    decreases |t|
  {
    var s := Spelled(spell, before, t) + ['"'] + rest;
    if t == [] {
      assert s == ['"'] + rest && s[1..] == rest;
    } else {
      var tail := Spelled(spell, t[0], t[1..]) + ['"'] + rest;
      assert s == spell(before, t[0]) + tail;
      ReadStep(spell(before, t[0]), t[0], tail);
      hide ReadString, ReadChar;
      SpelledReads(spell, t[0], t[1..], rest);
      assert t == [t[0]] + t[1..];
    }
  }

  /** A writer conforms whenever each of its spellings is allowed, a spelling that depends on
      the neighbouring character included. */
  lemma WriterConforms(spell: Spelling)
    requires Allowed(spell)
    ensures Conforming(Writer(spell))
  {
    forall t, rest: string ensures ReadString(Writer(spell)(t) + ['"'] + rest) == Some((t, rest)) {
      SpelledReads(spell, 0 as char, t, rest);
    }
  }

  /** The `\uXXXX` spelling. */
  function Unicode(c: char): string
    requires (c as int) < 0x1_0000
  {
    HexUnit(c as int)
  }

  lemma UnicodeReads(c: char)
    requires (c as int) < 0x1_0000
    ensures ReadChar(Unicode(c)) == Some((c, 6))
  {
    HexUnitReads(c as int);
    hide Hex4, HexUnit;
    assert c as int < 0xD800 || c as int >= 0xE000;
  }

  lemma Digits(n: nat)
    requires n < 0x1_0000
    ensures n / 4096 < 16 && ((n / 4096 * 16 + n / 256 % 16) * 16 + n / 16 % 16) * 16 + n % 16 == n
  {
  }

  lemma Hex4OfDigits(a: nat, b: nat, c: nat, d: nat)
    requires a < 16 && b < 16 && c < 16 && d < 16
    ensures Hex4([HexOf(a), HexOf(b), HexOf(c), HexOf(d)]) == Some(((a * 16 + b) * 16 + c) * 16 + d)
  {
    hide HexDigit, HexOf;
  }

  /** Spell only quotes, backslashes and control characters otherwise. */
  function Minimal(b: char, c: char): string {
    if c == '"' || c == '\\' then ['\\', c] else if c < ' ' then Unicode(c) else [c]
  }

  /** A two-character escape wherever section 7 has one. */
  function Short(b: char, c: char): string {
    if c == '"' || c == '\\' || c == '/' then ['\\', c]
    else if c == 8 as char then ['\\', 'b']
    else if c == 9 as char then ['\\', 't']
    else if c == 10 as char then ['\\', 'n']
    else if c == 12 as char then ['\\', 'f']
    else if c == 13 as char then ['\\', 'r']
    else if c < ' ' then Unicode(c)
    else [c]
  }

  /** The same, but a slash only behind `<`, and the C1 controls and general punctuation as well. */
  function MarkupSafe(b: char, c: char): string {
    if c == '/' && b != '<' then "/"
    else if 0x80 <= c as int < 0xA0 || 0x2000 <= c as int < 0x2100 then Unicode(c)
    else Short(b, c)
  }

  /** ASCII alone: any other character as one `\uXXXX` or as a surrogate pair of them. */
  function AsciiOnly(b: char, c: char): string {
    var n := c as int;
    if n < 0x80 then Minimal(b, c)
    else if n < 0x1_0000 then Unicode(c)
    else Pair(n - 0x1_0000)
  }

  /** The surrogate pair of a supplementary code point, less 0x1_0000. */
  function Pair(m: nat): string
    requires m < 0x10_0000
  {
    var hi, lo := 0xD800 + m / 0x400, 0xDC00 + m % 0x400;
    HexUnit(hi) + HexUnit(lo)
  }

  function HexUnit(n: nat): string
    requires n < 0x1_0000
  {
    ['\\', 'u', HexOf(n / 4096), HexOf(n / 256 % 16), HexOf(n / 16 % 16), HexOf(n % 16)]
  }

  lemma PairReads(c: char)
    requires c as int >= 0x1_0000
    ensures ReadChar(Pair(c as int - 0x1_0000)) == Some((c, 12))
  {
    var m := c as int - 0x1_0000;
    var hi, lo := 0xD800 + m / 0x400, 0xDC00 + m % 0x400;
    var e := Pair(m);
    HexUnitReads(hi);
    HexUnitReads(lo);
    assert e[2..6] == HexUnit(hi)[2..6] && e[8..12] == HexUnit(lo)[2..6];
    hide Hex4, HexUnit, Pair;
    PairOfUnits(e, hi, lo);
    assert 0x1_0000 + (hi - 0xD800) * 0x400 + (lo - 0xDC00) == c as int;
  }

  lemma PairOfUnits(e: string, hi: nat, lo: nat)
    requires |e| == 12 && e[0] == '\\' && e[1] == 'u' && e[6] == '\\' && e[7] == 'u'
    requires Hex4(e[2..6]) == Some(hi) && Hex4(e[8..12]) == Some(lo)
    requires 0xD800 <= hi < 0xDC00 && 0xDC00 <= lo < 0xE000
    ensures ReadChar(e) == Some(((0x1_0000 + (hi - 0xD800) * 0x400 + (lo - 0xDC00)) as char, 12))
  {
    hide Hex4;
  }

  lemma HexUnitReads(n: nat)
    requires n < 0x1_0000
    ensures |HexUnit(n)| == 6 && HexUnit(n)[0] == '\\' && HexUnit(n)[1] == 'u' && Hex4(HexUnit(n)[2..6]) == Some(n)
  {
    Digits(n);
    Hex4OfDigits(n / 4096, n / 256 % 16, n / 16 % 16, n % 16);
    assert HexUnit(n)[2..6] == [HexOf(n / 4096), HexOf(n / 256 % 16), HexOf(n / 16 % 16), HexOf(n % 16)];
    hide Hex4, HexOf;
  }

  lemma MinimalReads(b: char, c: char)
    ensures ReadChar(Minimal(b, c)) == Some((c, |Minimal(b, c)|))
  {
    if c < ' ' {
      UnicodeReads(c);
    }
    hide Unicode, ReadUnicode;
  }

  lemma ShortReads(b: char, c: char)
    ensures ReadChar(Short(b, c)) == Some((c, |Short(b, c)|))
  {
    if c == '"' || c == '\\' || c == '/' {
      TwoRead(c, c);
    } else if c == 8 as char {
      TwoRead('b', c);
    } else if c == 9 as char {
      TwoRead('t', c);
    } else if c == 10 as char {
      TwoRead('n', c);
    } else if c == 12 as char {
      TwoRead('f', c);
    } else if c == 13 as char {
      TwoRead('r', c);
    } else {
      MinimalReads(b, c);
    }
    hide ReadChar, Unicode, ShortEscape;
  }

  lemma TwoRead(e: char, c: char)
    requires e != 'u' && ShortEscape(e) == Some(c)
    ensures ReadChar(['\\', e]) == Some((c, 2))
  {
  }

  lemma MarkupSafeReads(b: char, c: char)
    ensures ReadChar(MarkupSafe(b, c)) == Some((c, |MarkupSafe(b, c)|))
  {
    ShortReads(b, c);
    if (c as int) < 0x1_0000 {
      UnicodeReads(c);
    }
    hide Unicode, ReadUnicode, Short;
  }

  lemma AsciiOnlyReads(b: char, c: char)
    ensures ReadChar(AsciiOnly(b, c)) == Some((c, |AsciiOnly(b, c)|))
  {
    MinimalReads(b, c);
    if (c as int) < 0x1_0000 {
      UnicodeReads(c);
    } else {
      PairReads(c);
    }
    hide Unicode, Minimal, Pair, ReadChar;
  }

  /** A writer in any of these manners conforms. */
  lemma KnownMannersConform()
    ensures Conforming(Writer(Minimal)) && Conforming(Writer(Short)) && Conforming(Writer(MarkupSafe))
    ensures Conforming(Writer(AsciiOnly))
  {
    forall b: char, c: char
      ensures ReadChar(Minimal(b, c)) == Some((c, |Minimal(b, c)|)) && ReadChar(Short(b, c)) == Some((c, |Short(b, c)|))
      ensures ReadChar(MarkupSafe(b, c)) == Some((c, |MarkupSafe(b, c)|))
      ensures ReadChar(AsciiOnly(b, c)) == Some((c, |AsciiOnly(b, c)|))
    {
      MinimalReads(b, c);
      ShortReads(b, c);
      MarkupSafeReads(b, c);
      AsciiOnlyReads(b, c);
    }
    hide ReadChar, Minimal, Short, MarkupSafe, AsciiOnly, Conforming;
    WriterConforms(Minimal);
    WriterConforms(Short);
    WriterConforms(MarkupSafe);
    WriterConforms(AsciiOnly);
  }
}
