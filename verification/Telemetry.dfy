/** Flattening a client's label to one harmless log field. */
module Telemetry {
  import opened Sequences
  import Text

  predicate IsControl(c: char) {
    c as int < 0x20 || 0x7F <= c as int <= 0x9F
  }

  predicate IsDeceptiveFormat(c: char) {
    var n := c as int;
    n == 0xAD || 0x200B <= n <= 0x200F || 0x202A <= n <= 0x202E || 0x2060 <= n <= 0x2064 || 0x2066 <= n <= 0x2069
    || n == 0xFEFF
  }

  function Unbreak(): char -> char {
    (c: char) => if IsControl(c) || IsDeceptiveFormat(c) then ' ' else c
  }

  function Space(): char -> bool {
    (c: char) => Text.IsWhitespace(c)
  }

  function NonEmpty(): string -> bool {
    (w: string) => w != ""
  }

  /** `split_whitespace`. */
  function Words(s: string): seq<string> {
    Filter(Text.Split(s, Space()), NonEmpty())
  }

  function Take(s: string, max: nat): string {
    if |s| <= max then s else s[..max]
  }

  function OneLine(s: string, max: nat): string {
    Take(Text.Join(Words(Map(s, Unbreak())), " "), max)
  }

  // ---- a one-pass reference -------------------------------------------------------------

  /** Characters that may reach the log as they are. */
  predicate Visible(c: char) {
    !IsControl(c) && !IsDeceptiveFormat(c) && !Text.IsWhitespace(c)
  }

  /** Keep the visible characters; a gap between two of them, however wide, becomes one space. */
  function Squeeze(s: string): string {
    if s == [] then ""
    else
      var k := |s| - 1;
      var done := Squeeze(s[..k]);
      if !Visible(s[k]) then done
      else if done != "" && !Visible(s[k - 1]) then done + [' ', s[k]]
      else done + [s[k]]
  }

  /** The words so far, seen at the end of the text: whether one is still open. */
  lemma {:induction false} LastPiece(s: string)
    ensures var pieces := Text.Split(s, Space()); Last(pieces) == "" <==> s == [] || Text.IsWhitespace(Last(s))
  {
  }

  lemma JoinSnoc(words: seq<string>, w: string)
    ensures Text.Join(words + [w], " ") == if words == [] then w else Text.Join(words, " ") + " " + w
  {
    assert (words + [w])[..|words|] == words;
  }

  /** The words before the last piece, and the last piece itself if it is one. */
  lemma WordsByPiece(init: seq<string>, last: string)
    ensures Filter(init + [last], NonEmpty()) == Filter(init, NonEmpty()) + (if last == "" then [] else [last])
  {
    FilterSnoc(init, last, NonEmpty());
  }

  /** One more piece to come: what closing the word, extending it and opening one do to the words. */
  lemma PiecesSnoc(init: seq<string>, last: string, c: char)
    ensures var before := Filter(init + [last], NonEmpty());
      Filter(init + [last] + [""], NonEmpty()) == before
      && (last == "" ==> Filter(init + [last + [c]], NonEmpty()) == before + [[c]])
      && (last != "" ==> before != []
                         && Filter(init + [last + [c]], NonEmpty()) == before[..|before| - 1] + [Last(before) + [c]])
  {
    hide Filter;
    var kept := Filter(init, NonEmpty());
    WordsByPiece(init, last);
    WordsByPiece(init, last + [c]);
    WordsByPiece(init + [last], "");
    if last == "" {
      assert kept + [] == kept && last + [c] == [c];
    } else {
      assert (kept + [last])[..|kept|] == kept;
    }
  }

  /** One more character: it closes the word, extends it, or opens a new one. */
  lemma WordsSnoc(s: string, c: char)
    ensures Text.IsWhitespace(c) ==> Words(s + [c]) == Words(s)
    ensures !Text.IsWhitespace(c) && s != [] && !Text.IsWhitespace(Last(s)) ==>
      Words(s) != [] && Words(s + [c]) == Words(s)[..|Words(s)| - 1] + [Last(Words(s)) + [c]]
    ensures !Text.IsWhitespace(c) && (s == [] || Text.IsWhitespace(Last(s))) ==> Words(s + [c]) == Words(s) + [[c]]
  {
    var pieces := Text.Split(s, Space());
    Text.SplitSnoc(s, c, Space());
    LastPiece(s);
    var init, last := pieces[..|pieces| - 1], Last(pieces);
    assert pieces == init + [last];
    hide Text.Split, Filter, Text.IsWhitespace;
    PiecesSnoc(init, last, c);
  }

  lemma JoinExtend(words: seq<string>, c: char)
    requires words != []
    ensures Text.Join(words[..|words| - 1] + [Last(words) + [c]], " ") == Text.Join(words, " ") + [c]
  {
    var init, w := words[..|words| - 1], Last(words);
    assert words == init + [w];
    hide Text.Join;
    JoinSnoc(init, w);
    JoinSnoc(init, w + [c]);
    Associate(Text.Join(init, " ") + " ", w, [c]);
  }

  lemma Associate(s: string, t: string, u: string)
    ensures s + t + u == s + (t + u)
  {
  }

  lemma JoinedWordsSnoc(s: string, c: char)
    ensures var before := Text.Join(Words(s), " ");
      Text.Join(Words(s + [c]), " ")
      == if Text.IsWhitespace(c) then before
         else if s != [] && !Text.IsWhitespace(Last(s)) then before + [c]
         else if Words(s) == [] then [c]
         else before + [' ', c]
  {
    hide Words, Text.Join;
    WordsSnoc(s, c);
    if !Text.IsWhitespace(c) {
      if s != [] && !Text.IsWhitespace(Last(s)) {
        JoinExtend(Words(s), c);
      } else {
        JoinSnoc(Words(s), [c]);
        assert Text.Join(Words(s), " ") + " " + [c] == Text.Join(Words(s), " ") + [' ', c];
      }
    }
  }

  lemma WordsNonEmpty(s: string)
    ensures forall w :: w in Words(s) ==> w != ""
  {
    forall w | w in Words(s) ensures w != "" {
      FilterMember(Text.Split(s, Space()), NonEmpty(), w);
    }
  }

  lemma JoinEmptyIffNoWords(s: string)
    ensures Text.Join(Words(s), " ") == "" <==> Words(s) == []
  {
    WordsNonEmpty(s);
    var ws := Words(s);
    if ws != [] {
      assert Last(ws) in ws;
    }
  }

  lemma NoWords()
    ensures Text.Join(Words(Map("", Unbreak())), " ") == ""
  {
    assert Map("", Unbreak()) == [];
    assert Filter([""][..0], NonEmpty()) == [];
  }

  /** Splitting into words and joining them is the one-pass squeeze. */
  lemma {:induction false} WordsAreSqueezed(s: string)
    ensures Text.Join(Words(Map(s, Unbreak())), " ") == Squeeze(s)
  {
    if s == [] {
      NoWords();
    } else {
      hide Words, Text.Join;
      var k := |s| - 1;
      WordsAreSqueezed(s[..k]);
      var clean := Map(s[..k], Unbreak());
      assert Map(s, Unbreak()) == clean + [Unbreak()(s[k])];
      JoinedWordsSnoc(clean, Unbreak()(s[k]));
      JoinEmptyIffNoWords(clean);
      assert Text.IsWhitespace(Unbreak()(s[k])) <==> !Visible(s[k]);
      if k > 0 {
        assert Last(clean) == Unbreak()(s[k - 1]);
        assert Text.IsWhitespace(Last(clean)) <==> !Visible(s[k - 1]);
      }
    }
  }

  /** The main result: a label's line is the first `max` characters of its squeeze. */
  lemma OneLineIsSqueeze(s: string, max: nat)
    ensures OneLine(s, max) == if |Squeeze(s)| <= max then Squeeze(s) else Squeeze(s)[..max]
  {
    WordsAreSqueezed(s);
  }

  // ---- what can reach the log --------------------------------------------------------------

  /** Visible characters and single inner spaces, and no space in front. */
  ghost predicate Harmless(t: string) {
    (forall i :: 0 <= i < |t| ==> Visible(t[i]) || t[i] == ' ')
    && (t != "" ==> t[0] != ' ')
    && (forall i :: 0 <= i < |t| - 1 ==> !(t[i] == ' ' && t[i + 1] == ' '))
  }

  lemma {:induction false} SqueezeHarmless(s: string)
    ensures Harmless(Squeeze(s))
    ensures Squeeze(s) != "" ==> Visible(Last(Squeeze(s)))
  {
    if s != [] {
      SqueezeHarmless(s[..|s| - 1]);
    }
  }

  lemma OneLineHarmless(s: string, max: nat)
    ensures Harmless(OneLine(s, max)) && |OneLine(s, max)| <= max
  {
    OneLineIsSqueeze(s, max);
    SqueezeHarmless(s);
  }

  function WithoutTrailingSpace(t: string): string {
    if t != "" && Last(t) == ' ' then t[..|t| - 1] else t
  }

  lemma SqueezeSnoc(s: string, c: char)
    ensures Squeeze(s + [c]) ==
      if !Visible(c) then Squeeze(s)
      else if Squeeze(s) != "" && !Visible(Last(s)) then Squeeze(s) + [' ', c]
      else Squeeze(s) + [c]
  {
    assert (s + [c])[..|s|] == s;
  }

  /** Squeezing harmless text only drops a trailing space. */
  lemma {:induction false} SqueezeOfHarmless(t: string)
    requires Harmless(t)
    ensures Squeeze(t) == WithoutTrailingSpace(t)
  {
    if t != [] {
      var init, c := t[..|t| - 1], Last(t);
      assert t == init + [c];
      SqueezeOfHarmless(init);
      SqueezeSnoc(init, c);
      hide Squeeze;
      assert !Visible(' ');
      if c != ' ' && init != [] && Last(init) == ' ' {
        assert init == init[..|init| - 1] + [' '];
      }
    }
  }

  /** A second application changes nothing but a trailing space the cut may have left. */
  lemma AgainOnlyDropsTheCutSpace(s: string, max: nat)
    ensures OneLine(OneLine(s, max), max) == WithoutTrailingSpace(OneLine(s, max))
  {
    OneLineHarmless(s, max);
    SqueezeOfHarmless(OneLine(s, max));
    OneLineIsSqueeze(OneLine(s, max), max);
  }

  // ---- by code points ---------------------------------------------------------------------------

  /** The code points a line of the log must not show as they are: controls, what hides or reorders
      text, and white space other than the space. */
  predicate Troublesome(n: int) {
    0 <= n < 0x20 || 0x7F <= n <= 0xA0 || n == 0xAD || n == 0x1680 || 0x2000 <= n <= 0x200F || 0x2028 <= n <= 0x202F
    || 0x205F <= n <= 0x2064 || 0x2066 <= n <= 0x2069 || n == 0x3000 || n == 0xFEFF
  }

  /** Printing, harmless text: no troublesome code point, and spaces only singly between words. */
  ghost predicate Clean(t: string) {
    (forall i :: 0 <= i < |t| ==> !Troublesome(t[i] as int))
    && (t != "" ==> t[0] != ' ')
    && (forall i :: 0 <= i < |t| - 1 ==> !(t[i] == ' ' && t[i + 1] == ' '))
  }

  lemma VisibleExactly(c: char)
    ensures Visible(c) <==> !Troublesome(c as int) && c != ' '
  {
  }

  lemma CleanIsHarmless(t: string)
    ensures Clean(t) <==> Harmless(t)
  {
    forall c: char ensures Visible(c) <==> !Troublesome(c as int) && c != ' ' {
      VisibleExactly(c);
    }
    assert !Troublesome(' ' as int);
    hide Visible, Troublesome;
    assert forall i :: 0 <= i < |t| ==> (Visible(t[i]) <==> !Troublesome(t[i] as int) && t[i] != ' ');
  }

  /** By code points: what reaches the log is clean, and clean text that ends with a word and fits
      reaches it unchanged. */
  lemma OnlyTroubleIsTaken(s: string, max: nat)
    ensures Clean(OneLine(s, max))
    ensures Clean(s) && |s| <= max && (s != "" ==> Last(s) != ' ') ==> OneLine(s, max) == s
  {
    OneLineHarmless(s, max);
    CleanIsHarmless(OneLine(s, max));
    CleanIsHarmless(s);
    if Clean(s) {
      OneLineIsSqueeze(s, max);
      SqueezeOfHarmless(s);
    }
  }
}
