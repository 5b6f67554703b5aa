/** Strings as the server sees them: Unicode white space, trimming, splitting, and the
    code-point order that report ids and sorted lists are compared by. */
module Text {

  /** The characters with Unicode's White_Space property, which `str::trim` and
      `split_whitespace` go by. */
  predicate IsWhitespace(c: char) {
    var n := c as int;
    9 <= n <= 13 || n == 0x20 || n == 0x85 || n == 0xA0 || n == 0x1680 || 0x2000 <= n <= 0x200A
    || n == 0x2028 || n == 0x2029 || n == 0x202F || n == 0x205F || n == 0x3000
  }

  /** One by one. */
  lemma WhitespaceExactly(c: char)
    ensures IsWhitespace(c) <==>
      c as int in [0x9, 0xA, 0xB, 0xC, 0xD, 0x20, 0x85, 0xA0, 0x1680, 0x2000, 0x2001, 0x2002, 0x2003, 0x2004, 0x2005,
                   0x2006, 0x2007, 0x2008, 0x2009, 0x200A, 0x2028, 0x2029, 0x202F, 0x205F, 0x3000]
  {
  }

  function TrimStart(s: string): string {
    if s != [] && IsWhitespace(s[0]) then TrimStart(s[1..]) else s
  }

  function TrimEnd(s: string): string {
    if s != [] && IsWhitespace(s[|s| - 1]) then TrimEnd(s[..|s| - 1]) else s
  }

  function Trim(s: string): string {
    TrimEnd(TrimStart(s))
  }

  /** Neither end is white space. */
  predicate Trimmed(s: string) {
    s == [] || (!IsWhitespace(s[0]) && !IsWhitespace(s[|s| - 1]))
  }

  /** Strict lexicographic order by code point. */
  predicate Below(a: string, b: string) {
    b != [] && (a == [] || a[0] < b[0] || (a[0] == b[0] && Below(a[1..], b[1..])))
  }

  /** One string is below another when it ends first, or is smaller where they first differ. */
  lemma {:induction false} BelowExactly(a: string, b: string)
    ensures Below(a, b) <==>
      exists i :: 0 <= i <= |a| && i < |b| && a[..i] == b[..i] && (i == |a| || a[i] < b[i])
  {
    if a != [] && b != [] && a[0] == b[0] {
      BelowExactly(a[1..], b[1..]);
      if i :| 0 <= i <= |a[1..]| && i < |b[1..]| && a[1..][..i] == b[1..][..i]
              && (i == |a[1..]| || a[1..][i] < b[1..][i]) {
        assert a[..i + 1] == [a[0]] + a[1..][..i] && b[..i + 1] == [b[0]] + b[1..][..i];
      }
      if i :| 0 <= i <= |a| && i < |b| && a[..i] == b[..i] && (i == |a| || a[i] < b[i]) {
        assert i > 0;
        assert a[1..][..i - 1] == a[..i][1..] && b[1..][..i - 1] == b[..i][1..];
      }
    } else if b != [] {
      assert a[..0] == b[..0];
      forall i | 0 < i <= |a| && i < |b| ensures a[..i] != b[..i] {
        assert a[..i][0] == a[0] && b[..i][0] == b[0];
      }
    }
  }

  lemma BelowIrreflexive(a: string)
    ensures !Below(a, a)
  {
    if a != [] {
      BelowIrreflexive(a[1..]);
    }
  }

  lemma BelowTransitive(a: string, b: string, c: string)
    requires Below(a, b) && Below(b, c)
    ensures Below(a, c)
  {
    if a != [] && a[0] == b[0] && b[0] == c[0] {
      BelowTransitive(a[1..], b[1..], c[1..]);
    }
  }

  lemma BelowTotal(a: string, b: string)
    ensures a == b || Below(a, b) || Below(b, a)
  {
    if a != [] && b != [] && a[0] == b[0] {
      BelowTotal(a[1..], b[1..]);
      assert a == [a[0]] + a[1..] && b == [b[0]] + b[1..];
    }
  }

  lemma BelowAsymmetric(a: string, b: string)
    ensures !(Below(a, b) && Below(b, a))
  {
    if Below(a, b) && Below(b, a) {
      BelowTransitive(a, b, a);
      BelowIrreflexive(a);
    }
  }

  lemma TrimOfTrimmed(s: string)
    requires Trimmed(s)
    ensures Trim(s) == s
  {
  }

  lemma TrimIsTrimmed(s: string)
    ensures Trimmed(Trim(s))
  {
    TrimStartSpec(s);
    TrimEndSpec(TrimStart(s));
  }

  lemma TrimStartSpec(s: string)
    ensures TrimStart(s) == [] || !IsWhitespace(TrimStart(s)[0])
  {
  }

  lemma TrimEndSpec(s: string)
    ensures TrimEnd(s) == [] || !IsWhitespace(TrimEnd(s)[|TrimEnd(s)| - 1])
    ensures TrimEnd(s) <= s
  {
  }

  lemma {:induction false} TrimStartCuts(s: string) returns (front: string)
    ensures s == front + TrimStart(s) && forall c :: c in front ==> IsWhitespace(c)
  {
    front := "";
    if s != [] && IsWhitespace(s[0]) {
      var more := TrimStartCuts(s[1..]);
      front := [s[0]] + more;
      assert s == [s[0]] + s[1..];
    }
  }

  lemma {:induction false} TrimEndCuts(s: string) returns (back: string)
    ensures s == TrimEnd(s) + back && forall c :: c in back ==> IsWhitespace(c)
  {
    back := "";
    if s != [] && IsWhitespace(s[|s| - 1]) {
      var k := |s| - 1;
      var more := TrimEndCuts(s[..k]);
      back := more + [s[k]];
      assert s == s[..k] + [s[k]];
    }
  }

  /** Trimming cuts white space off both ends, and nothing else. */
  lemma TrimExactly(s: string) returns (front: string, back: string)
    ensures s == front + Trim(s) + back && Trimmed(Trim(s))
    ensures forall c :: c in front + back ==> IsWhitespace(c)
  {
    front := TrimStartCuts(s);
    back := TrimEndCuts(TrimStart(s));
    TrimIsTrimmed(s);
    assert front + (Trim(s) + back) == front + Trim(s) + back;
  }

  // ---- splitting and joining --------------------------------------------------------------

  /** Before and after the first `sep`. */
  function SplitOnce(s: string, sep: char): (r: (bool, string, string))
    ensures r.0 ==> sep !in r.1 && s == r.1 + [sep] + r.2
    ensures !r.0 ==> sep !in s
  {
    if s == [] then (false, "", "")
    else if s[0] == sep then (true, "", s[1..])
    else
      var r := SplitOnce(s[1..], sep);
      assert s == [s[0]] + s[1..];
      (r.0, [s[0]] + r.1, r.2)
  }

  lemma {:induction false} SplitOnceAt(head: string, sep: char, tail: string)
    requires sep !in head
    ensures SplitOnce(head + [sep] + tail, sep) == (true, head, tail)
  {
    var s := head + [sep] + tail;
    if head == [] {
      assert s == [sep] + tail;
    } else {
      assert s[1..] == head[1..] + [sep] + tail;
      SplitOnceAt(head[1..], sep, tail);
      assert head == [head[0]] + head[1..];
    }
  }

  /** The pieces between separators, empty ones included; always at least one. */
  function Split(s: string, isSep: char -> bool): (pieces: seq<string>)
    ensures pieces != []
  {
    if s == [] then [""]
    else
      var k := |s| - 1;
      var before := Split(s[..k], isSep);
      if isSep(s[k]) then before + [""]
      else before[..|before| - 1] + [before[|before| - 1] + [s[k]]]
  }

  function Join(parts: seq<string>, sep: string): string {
    if parts == [] then ""
    else if |parts| == 1 then parts[0]
    else Join(parts[..|parts| - 1], sep) + sep + parts[|parts| - 1]
  }

  lemma SplitSnoc(s: string, c: char, isSep: char -> bool)
    ensures var before := Split(s, isSep);
      Split(s + [c], isSep)
      == if isSep(c) then before + [""] else before[..|before| - 1] + [before[|before| - 1] + [c]]
  {
    assert (s + [c])[..|s|] == s;
  }

  /** Text without separators extends the last piece. */
  lemma {:induction false} SplitPlain(s: string, t: string, isSep: char -> bool)
    requires forall i :: 0 <= i < |t| ==> !isSep(t[i])
    ensures var before := Split(s, isSep);
      Split(s + t, isSep) == before[..|before| - 1] + [before[|before| - 1] + t]
  {
    hide Split;
    var before := Split(s, isSep);
    if t == [] {
      assert s + t == s;
      assert before[|before| - 1] + t == before[|before| - 1];
    } else {
      var k := |t| - 1;
      SplitPlain(s, t[..k], isSep);
      assert s + t == s + t[..k] + [t[k]];
      SplitSnoc(s + t[..k], t[k], isSep);
      assert before[|before| - 1] + t[..k] + [t[k]] == before[|before| - 1] + t;
    }
  }

  /** Joining pieces that hold no separator and splitting again gives them back. */
  lemma {:induction false} SplitOfJoin(parts: seq<string>, sep: char, isSep: char -> bool)
    requires parts != [] && isSep(sep)
    requires forall i, j :: 0 <= i < |parts| && 0 <= j < |parts[i]| ==> !isSep(parts[i][j])
    ensures Split(Join(parts, [sep]), isSep) == parts
  {
    var k := |parts| - 1;
    if k == 0 {
      SplitPlain("", parts[0], isSep);
      assert "" + parts[0] == parts[0];
      assert Split("", isSep) == [""];
      assert parts == [parts[0]];
    } else {
      hide Split;
      SplitOfJoin(parts[..k], sep, isSep);
      SplitSnoc(Join(parts[..k], [sep]), sep, isSep);
      SplitPlain(Join(parts[..k], [sep]) + [sep], parts[k], isSep);
      assert parts == parts[..k] + [parts[k]];
      assert "" + parts[k] == parts[k];
    }
  }

  /** No piece holds a separator, and no piece holds what the text did not. */
  lemma {:induction false} SplitPieces(s: string, isSep: char -> bool)
    ensures forall p, c :: p in Split(s, isSep) && c in p ==> !isSep(c) && c in s
  {
    if s != [] {
      var k := |s| - 1;
      SplitPieces(s[..k], isSep);
      assert s == s[..k] + [s[k]];
    }
  }

  lemma {:induction false} TrimStartPart(s: string)
    ensures forall c :: c in TrimStart(s) ==> c in s
  {
    if s != [] {
      TrimStartPart(s[1..]);
    }
  }

  lemma TrimPart(s: string)
    ensures forall c :: c in Trim(s) ==> c in s
  {
    TrimStartPart(s);
    TrimEndSpec(TrimStart(s));
  }
}
