/** The token list in the configuration and the identity a presented token resolves to. */
module Tokens {
  import opened ReportTypes
  import opened Sequences
  import opened Hex
  import Text
  import Utf8

  datatype ConfigError = NoColon | EmptyPart

  datatype Parsed = Parsed(pairs: seq<(string, string)>) | Refused(error: ConfigError)

  function Comma(): char -> bool {
    (c: char) => c == ','
  }

  /** One trimmed, non-empty entry. */
  function ParseEntry(entry: string): Parsed {
    var (found, before, after) := Text.SplitOnce(entry, ':');
    var source, token := Text.Trim(before), Text.Trim(after);
    if !found then Refused(NoColon)
    else if source == "" || token == "" then Refused(EmptyPart)
    else Parsed([(source, token)])
  }

  /** All entries in order, blank ones skipped, up to the first refusal. */
  function ParseAll(entries: seq<string>): Parsed {
    if entries == [] then Parsed([])
    else if Text.Trim(entries[0]) == "" then ParseAll(entries[1..])
    else match ParseEntry(Text.Trim(entries[0]))
      case Refused(e) => Refused(e)
      case Parsed(first) => After(first, ParseAll(entries[1..]))
  }

  function After(pairs: seq<(string, string)>, rest: Parsed): Parsed {
    match rest
    case Refused(e) => Refused(e)
    case Parsed(more) => Parsed(pairs + more)
  }

  method ParseTokens(raw: string) returns (res: Parsed)
    ensures res == ParseAll(Text.Split(raw, Comma()))
  {
    var entries := Text.Split(raw, Comma());
    var out: seq<(string, string)> := [];
    var i := 0;
    while i < |entries|
      invariant 0 <= i <= |entries|
      invariant ParseAll(entries) == After(out, ParseAll(entries[i..]))
    {
      var entry := Text.Trim(entries[i]);
      assert entries[i..][1..] == entries[i + 1..];
      if entry != "" {
        match ParseEntry(entry) {
          case Refused(e) => return Refused(e);
          case Parsed(first) =>
            AfterAfter(out, first, ParseAll(entries[i + 1..]));
            out := out + first;
        }
      }
      i := i + 1;
    }
    assert out + [] == out;
    return Parsed(out);
  }

  lemma AfterAfter(a: seq<(string, string)>, b: seq<(string, string)>, rest: Parsed)
    ensures After(a, After(b, rest)) == After(a + b, rest)
  {
    if rest.Parsed? {
      assert a + (b + rest.pairs) == a + b + rest.pairs;
    }
  }

  // ---- the list round-trips --------------------------------------------------------------------

  function ShowPair(): ((string, string)) -> string {
    (p: (string, string)) => p.0 + ":" + p.1
  }

  function Print(pairs: seq<(string, string)>): string {
    Text.Join(Map(pairs, ShowPair()), ",")
  }

  /** What an entry can say: trimmed and non-empty parts, no comma, no colon in the source. */
  predicate Sayable(p: (string, string)) {
    p.0 != "" && p.1 != "" && Text.Trimmed(p.0) && Text.Trimmed(p.1)
    && ',' !in p.0 && ',' !in p.1 && ':' !in p.0
  }

  lemma EntryRoundTrip(p: (string, string))
    requires Sayable(p)
    ensures Text.Trim(ShowPair()(p)) == ShowPair()(p) != "" && ParseEntry(ShowPair()(p)) == Parsed([p])
  {
    var e := p.0 + ":" + p.1;
    Text.TrimOfTrimmed(e);
    Text.TrimOfTrimmed(p.0);
    Text.TrimOfTrimmed(p.1);
    Text.SplitOnceAt(p.0, ':', p.1);
  }

  lemma {:induction false} EntriesRoundTrip(pairs: seq<(string, string)>)
    requires forall p :: p in pairs ==> Sayable(p)
    ensures ParseAll(Map(pairs, ShowPair())) == Parsed(pairs)
  {
    if pairs != [] {
      var es := Map(pairs, ShowPair());
      assert es[1..] == Map(pairs[1..], ShowPair());
      EntryRoundTrip(pairs[0]);
      EntriesRoundTrip(pairs[1..]);
      assert pairs == [pairs[0]] + pairs[1..];
    }
  }

  /** Whatever is parsed is sayable. */
  lemma {:induction false} ParsedIsSayable(entries: seq<string>)
    requires forall e :: e in entries ==> ',' !in e
    ensures ParseAll(entries).Parsed? ==> forall p :: p in ParseAll(entries).pairs ==> Sayable(p)
  {
    if entries != [] {
      ParsedIsSayable(entries[1..]);
      EntryIsSayable(entries[0]);
    }
  }

  lemma EntryIsSayable(raw: string)
    requires ',' !in raw
    ensures var r := ParseEntry(Text.Trim(raw)); r.Parsed? ==> |r.pairs| == 1 && Sayable(r.pairs[0])
  {
    var entry := Text.Trim(raw);
    Text.TrimPart(raw);
    var (found, before, after) := Text.SplitOnce(entry, ':');
    Text.TrimPart(before);
    Text.TrimPart(after);
    Text.TrimIsTrimmed(before);
    Text.TrimIsTrimmed(after);
  }

  /** Printing a list and parsing it gives the list back exactly when every pair is sayable. */
  lemma TokenListRoundTripsExactly(pairs: seq<(string, string)>)
    ensures ParseAll(Text.Split(Print(pairs), Comma())) == Parsed(pairs) <==> forall p :: p in pairs ==> Sayable(p)
  {
    var raw := Print(pairs);
    Text.SplitPieces(raw, Comma());
    forall e | e in Text.Split(raw, Comma()) ensures ',' !in e {
      assert forall c :: c in e ==> !Comma()(c);
    }
    ParsedIsSayable(Text.Split(raw, Comma()));
    if forall p :: p in pairs ==> Sayable(p) {
      if pairs == [] {
        assert Text.Split(raw, Comma()) == [""];
        assert [""][1..] == [];
      } else {
        var es := Map(pairs, ShowPair());
        forall i, j | 0 <= i < |es| && 0 <= j < |es[i]| ensures !Comma()(es[i][j]) {
          assert pairs[i] in pairs;
          assert es[i][j] in es[i];
        }
        Text.SplitOfJoin(es, ',', Comma());
        EntriesRoundTrip(pairs);
      }
    }
  }

  // ---- what a list means ------------------------------------------------------------------------

  /** Something is left of the entry once it is trimmed. */
  function NonBlank(): string -> bool {
    (entry: string) => Text.Trim(entry) != ""
  }

  /** The entry says `source` and `token`: either side of its first colon, trimmed and not empty. */
  ghost predicate Says(entry: string, source: string, token: string) {
    source != "" && token != ""
    && exists i :: 0 <= i < |entry| && ColonAt(entry, i)
                   && Text.Trim(entry[..i]) == source && Text.Trim(entry[i + 1..]) == token
  }

  predicate ColonAt(entry: string, i: nat)
    requires i < |entry|
  {
    entry[i] == ':' && ':' !in entry[..i]
  }

  lemma SplitAtColon(entry: string)
    ensures var (found, before, after) := Text.SplitOnce(entry, ':');
      if found then |before| < |entry| && ColonAt(entry, |before|) && before == entry[..|before|]
                    && after == entry[|before| + 1..]
                    && forall i :: 0 <= i < |entry| && ColonAt(entry, i) ==> i == |before|
      else forall i :: 0 <= i < |entry| ==> !ColonAt(entry, i)
  {
    var (found, before, after) := Text.SplitOnce(entry, ':');
    if found {
      assert entry == before + ":" + after;
      forall i | 0 <= i < |before| ensures entry[i] != ':' {
        assert before[i] in before;
      }
      forall i | |before| < i < |entry| ensures ':' in entry[..i] {
        assert entry[..i][|before|] == ':';
      }
    }
  }

  /** An entry is refused exactly when it says nothing, for want of a colon or of a part. */
  lemma EntryExactly(entry: string)
    ensures match ParseEntry(entry)
            case Parsed(pairs) => |pairs| == 1 && Says(entry, pairs[0].0, pairs[0].1)
            case Refused(NoColon) => ':' !in entry && forall s, t :: !Says(entry, s, t)
            case Refused(EmptyPart) => ':' in entry && forall s, t :: !Says(entry, s, t)
  {
    SplitAtColon(entry);
    hide Text.SplitOnce, Text.Trim;
    var (found, before, after) := Text.SplitOnce(entry, ':');
    if found {
      assert entry[|before|] == ':';
    }
  }

  /** Some entry that is not blank says nothing. */
  ghost predicate Malformed(entry: string) {
    Text.Trim(entry) != "" && forall s, t :: !Says(Text.Trim(entry), s, t)
  }

  /** One malformed entry refuses the whole list; otherwise the pairs are what the entries that are
      not blank say, in order. */
  lemma {:induction false} ParsedExactly(entries: seq<string>)
    ensures ParseAll(entries).Refused? <==> exists e :: e in entries && Malformed(e)
    ensures ParseAll(entries).Parsed? ==>
      var said := Filter(entries, NonBlank()); var pairs := ParseAll(entries).pairs;
      |pairs| == |said| && forall i :: 0 <= i < |said| ==> Says(Text.Trim(said[i]), pairs[i].0, pairs[i].1)
  {
    hide Text.Trim, ParseEntry, Says;
    if entries != [] {
      var first, rest := entries[0], entries[1..];
      assert entries == [first] + rest;
      ParsedExactly(rest);
      EntryExactly(Text.Trim(first));
      FilterAppend([first], rest, NonBlank());
      FilterSnoc([], first, NonBlank());
      assert Malformed(first) <==> Text.Trim(first) != "" && ParseEntry(Text.Trim(first)).Refused?;
    }
  }

  // ---- comparing ---------------------------------------------------------------------------------

  /** Exclusive or of the low `bits` bits. */
  function Xor(x: nat, y: nat, bits: nat): nat {
    if bits == 0 then 0 else 2 * Xor(x / 2, y / 2, bits - 1) + (if x % 2 == y % 2 then 0 else 1)
  }

  /** Inclusive or of the low `bits` bits. */
  function Or(x: nat, y: nat, bits: nat): nat {
    if bits == 0 then 0 else 2 * Or(x / 2, y / 2, bits - 1) + (if x % 2 == 0 && y % 2 == 0 then 0 else 1)
  }

  function Power2(bits: nat): nat {
    if bits == 0 then 1 else 2 * Power2(bits - 1)
  }

  lemma {:induction false} XorZero(x: nat, y: nat, bits: nat)
    requires x < Power2(bits) && y < Power2(bits)
    ensures Xor(x, y, bits) == 0 <==> x == y
  {
    if bits > 0 {
      XorZero(x / 2, y / 2, bits - 1);
    }
  }

  lemma {:induction false} OrZero(x: nat, y: nat, bits: nat)
    requires x < Power2(bits) && y < Power2(bits)
    ensures Or(x, y, bits) == 0 <==> x == 0 && y == 0
  {
    if bits > 0 {
      OrZero(x / 2, y / 2, bits - 1);
    }
  }

  lemma {:induction false} BitsBound(x: nat, y: nat, bits: nat)
    ensures Xor(x, y, bits) < Power2(bits) && Or(x, y, bits) < Power2(bits)
  {
    if bits > 0 {
      BitsBound(x / 2, y / 2, bits - 1);
    }
  }

  /** The accumulator's step: it stays zero exactly while the bytes agree. */
  lemma AccumulatorStep(diff: Byte, x: Byte, y: Byte)
    ensures Or(diff, Xor(x, y, 8), 8) < 256
    ensures Or(diff, Xor(x, y, 8), 8) == 0 <==> diff == 0 && x == y
  {
    assert Power2(8) == 2 * (2 * (2 * (2 * (2 * (2 * (2 * (2 * Power2(0))))))));
    hide Or, Xor, Power2;
    BitsBound(x, y, 8);
    BitsBound(diff, Xor(x, y, 8), 8);
    XorZero(x, y, 8);
    OrZero(diff, Xor(x, y, 8), 8);
  }

  /** The constant-time comparison decides equality. */
  method CtEq(a: seq<Byte>, b: seq<Byte>) returns (equal: bool)
    ensures equal <==> a == b
  {
    if |a| != |b| {
      return false;
    }
    var diff: Byte := 0;
    var i := 0;
    while i < |a|
      invariant 0 <= i <= |a|
      invariant diff == 0 <==> a[..i] == b[..i]
    {
      AccumulatorStep(diff, a[i], b[i]);
      assert a[..i + 1] == a[..i] + [a[i]] && b[..i + 1] == b[..i] + [b[i]];
      diff := Or(diff, Xor(a[i], b[i], 8), 8);
      i := i + 1;
    }
    assert a[..i] == a && b[..i] == b;
    return diff == 0;
  }

  // ---- resolving a request ---------------------------------------------------------------------------

  /** What a header value may hold for its text to be read: space to tilde, and the tab. */
  predicate VisibleAscii(s: string) {
    forall c :: c in s ==> ' ' <= c <= '~' || c == '\t'
  }

  /** The token of an Authorization header, if it has one and is visible ASCII. */
  function Bearer(header: Option<string>): Option<string> {
    match header
    case None => None
    case Some(raw) =>
      if !VisibleAscii(raw) then None
      else if "Bearer " <= raw || "bearer " <= raw then
        var token := Text.Trim(raw[7..]);
        if token == "" then None else Some(token)
      else None
  }

  /** The source of the last pair with this token. */
  function SourceOf(pairs: seq<(string, string)>, token: string): Option<string> {
    if pairs == [] then None
    else if Last(pairs).1 == token then Some(Last(pairs).0)
    else SourceOf(pairs[..|pairs| - 1], token)
  }

  function Identify(header: Option<string>, pairs: seq<(string, string)>): Option<string> {
    match Bearer(header)
    case None => None
    case Some(token) => SourceOf(pairs, token)
  }

  method Authenticate(header: Option<string>, pairs: seq<(string, string)>) returns (source: Option<string>)
    ensures source == Identify(header, pairs)
  {
    var presented := Bearer(header);
    if presented.None? {
      return None;
    }
    source := None;
    var i := 0;
    while i < |pairs|
      invariant 0 <= i <= |pairs|
      invariant source == SourceOf(pairs[..i], presented.value)
    {
      var same := CtEq(Utf8.Encode(presented.value), Utf8.Encode(pairs[i].1));
      Utf8.Injective(presented.value, pairs[i].1);
      assert pairs[..i + 1][..i] == pairs[..i];
      if same {
        source := Some(pairs[i].0);
      }
      i := i + 1;
    }
    assert pairs[..i] == pairs;
  }

  method AuthenticateRead(header: Option<string>, tokens: seq<string>) returns (ok: bool)
    ensures ok <==> Bearer(header).Some? && Bearer(header).value in tokens
  {
    var presented := Bearer(header);
    if presented.None? {
      return false;
    }
    ok := false;
    var i := 0;
    while i < |tokens|
      invariant 0 <= i <= |tokens|
      invariant ok <==> presented.value in tokens[..i]
    {
      var same := CtEq(Utf8.Encode(presented.value), Utf8.Encode(tokens[i]));
      Utf8.Injective(presented.value, tokens[i]);
      assert tokens[..i + 1] == tokens[..i] + [tokens[i]];
      if same {
        ok := true;
      }
      i := i + 1;
    }
    assert tokens[..i] == tokens;
  }

  /** The `i`th pair is the last one with this token. */
  ghost predicate LastWith(pairs: seq<(string, string)>, i: int, token: string) {
    0 <= i < |pairs| && pairs[i].1 == token && forall j :: i < j < |pairs| ==> pairs[j].1 != token
  }

  /** A source is found exactly for the tokens of the list, and it is that of the last pair with
      the token. */
  lemma {:induction false} SourceOfSpec(pairs: seq<(string, string)>, token: string)
    ensures match SourceOf(pairs, token)
            case Some(source) =>
              exists i :: LastWith(pairs, i, token) && pairs[i].0 == source
            case None => forall p :: p in pairs ==> p.1 != token
  {
    if pairs != [] {
      var init := pairs[..|pairs| - 1];
      SourceOfSpec(init, token);
      assert pairs == init + [Last(pairs)];
      if Last(pairs).1 == token {
        assert LastWith(pairs, |pairs| - 1, token);
      } else if SourceOf(init, token).Some? {
        var i :| LastWith(init, i, token) && init[i].0 == SourceOf(init, token).value;
        assert LastWith(pairs, i, token);
      }
    }
  }

  /** A header carries a token behind one of two spellings of the scheme, and surrounding white
      space is not part of it. */
  lemma BearerExactly(raw: string, token: string)
    ensures Bearer(Some(raw)) == Some(token) <==>
      (forall i :: 0 <= i < |raw| ==> 0x20 <= raw[i] as int < 0x7F || raw[i] as int == 9) && token != ""
      && exists rest :: (raw == "Bearer " + rest || raw == "bearer " + rest) && Text.Trim(rest) == token
    ensures Bearer(None) == None
  {
    hide Text.Trim;
    assert VisibleAscii(raw) <==> forall i :: 0 <= i < |raw| ==> 0x20 <= raw[i] as int < 0x7F || raw[i] as int == 9 by {
      assert forall i :: 0 <= i < |raw| ==> raw[i] in raw;
    }
    if Bearer(Some(raw)) == Some(token) {
      assert raw == raw[..7] + raw[7..];
    }
    if rest :| (raw == "Bearer " + rest || raw == "bearer " + rest) && Text.Trim(rest) == token {
      assert raw[7..] == rest;
    }
  }

  /** A header can carry a token exactly when the token is visible ASCII, trimmed and not empty. */
  lemma PresentableExactly(token: string)
    ensures (exists header :: Bearer(header) == Some(token)) <==>
      VisibleAscii(token) && Text.Trimmed(token) && token != ""
    ensures VisibleAscii(token) && Text.Trimmed(token) && token != "" ==> Bearer(Some("Bearer " + token)) == Some(token)
  {
    if header :| Bearer(header) == Some(token) {
      var raw := header.value;
      Text.TrimPart(raw[7..]);
      Text.TrimIsTrimmed(raw[7..]);
      assert forall c :: c in raw[7..] ==> c in raw;
      assert VisibleAscii(token);
    }
    if VisibleAscii(token) && Text.Trimmed(token) && token != "" {
      var raw := "Bearer " + token;
      assert "Bearer " <= raw && raw[7..] == token;
      assert VisibleAscii("Bearer ");
      Text.TrimOfTrimmed(token);
      assert Bearer(Some(raw)) == Some(token);
    }
  }

  lemma SourceOfDistinct(pairs: seq<(string, string)>, i: nat)
    requires i < |pairs| && forall i, j :: 0 <= i < j < |pairs| ==> pairs[i].1 != pairs[j].1
    ensures SourceOf(pairs, pairs[i].1) == Some(pairs[i].0)
  {
    SourceOfSpec(pairs, pairs[i].1);
    assert pairs[i] in pairs;
    var source := SourceOf(pairs, pairs[i].1).value;
    var j :| 0 <= j < |pairs| && pairs[j] == (source, pairs[i].1);
  }

  /** Configured tokens are identities, as far as a header can carry them: print a list of
      sayable pairs with distinct tokens and parse it. Presenting the `i`th token answers the
      `i`th source exactly when the token is visible ASCII; no header at all presents it
      otherwise; and a header that presents none of the tokens is answered by no source. */
  lemma TokensAreIdentities(pairs: seq<(string, string)>, header: Option<string>)
    requires forall p :: p in pairs ==> Sayable(p)
    requires forall i, j :: 0 <= i < j < |pairs| ==> pairs[i].1 != pairs[j].1
    ensures var parsed := ParseAll(Text.Split(Print(pairs), Comma()));
      parsed.Parsed?
      && (forall i :: 0 <= i < |pairs| ==>
            (Identify(Some("Bearer " + pairs[i].1), parsed.pairs) == Some(pairs[i].0) <==> VisibleAscii(pairs[i].1)))
      && (forall i :: 0 <= i < |pairs| && Bearer(header) == Some(pairs[i].1) ==>
            VisibleAscii(pairs[i].1) && Identify(header, parsed.pairs) == Some(pairs[i].0))
      && ((forall i :: 0 <= i < |pairs| ==> Bearer(header) != Some(pairs[i].1)) ==>
            Identify(header, parsed.pairs) == None)
  {
    TokenListRoundTripsExactly(pairs);
    forall i | 0 <= i < |pairs|
      ensures Identify(Some("Bearer " + pairs[i].1), pairs) == Some(pairs[i].0) <==> VisibleAscii(pairs[i].1)
      ensures Bearer(header) == Some(pairs[i].1) ==>
        VisibleAscii(pairs[i].1) && Identify(header, pairs) == Some(pairs[i].0)
    {
      assert pairs[i] in pairs;
      PresentableExactly(pairs[i].1);
      SourceOfDistinct(pairs, i);
      assert forall c :: c in pairs[i].1 ==> c in "Bearer " + pairs[i].1;
    }
    if Bearer(header).Some? {
      SourceOfSpec(pairs, Bearer(header).value);
    }
  }

  /** A token the configuration accepts and no request can ever present. */
  lemma UnpresentableToken(header: Option<string>)
    ensures Sayable(("mac", "\U{E9}"))
    ensures Bearer(header) != Some("\U{E9}") && Identify(header, [("mac", "\U{E9}")]) == None
  {
    var token := "\U{E9}";
    assert token[0] in token;
    PresentableExactly(token);
    SourceOfSpec([("mac", token)], if Bearer(header).Some? then Bearer(header).value else "");
  }
}
