/**
 * Text as the editor sees it: strings are sequences of Unicode scalar values,
 * and every user-facing index counts extended grapheme clusters.
 */
module Graphemes {

  /** A grapheme cluster is never empty, and a tab is always a cluster on its own
      (a control character breaks clusters on both sides, rules GB4 and GB5 of
      Unicode Standard Annex #29). */
  predicate IsCluster(s: string) {
    |s| > 0 && ('\t' in s ==> s == "\t")
  }

  type Grapheme = s: string | IsCluster(s) witness "a"

  /** A single pushed character, taken as a cluster of its own. */
  function Unit(c: char): (g: Grapheme)
    ensures |g| == 1 && g[0] == c
  {
    [c]
  }

  /** The string whose clusters are gs, in order. */
  function Concat(gs: seq<Grapheme>): string {
    if gs == [] then [] else Concat(gs[..|gs| - 1]) + gs[|gs| - 1]
  }

  lemma {:induction false} ConcatAppend(a: seq<Grapheme>, b: seq<Grapheme>)
    ensures Concat(a + b) == Concat(a) + Concat(b)
    decreases |b|
  {
    if b == [] {
      assert a + b == a;
    } else {
      var k := |b| - 1;
      assert (a + b)[..|a + b| - 1] == a + b[..k];
      ConcatAppend(a, b[..k]);
    }
  }

  lemma {:induction false} ConcatLength(gs: seq<Grapheme>)
    ensures |Concat(gs)| >= |gs|
  {
    if gs != [] {
      ConcatLength(gs[..|gs| - 1]);
    }
  }

  // ---------------------------------------------------------------------------
  // Byte length of the UTF-8 encoding, which `String::len` reports.

  function Utf8Width(c: char): (n: nat)
    ensures 1 <= n <= 4
  {
    if c as int < 0x80 then 1
    else if c as int < 0x800 then 2
    else if c as int < 0x1_0000 then 3
    else 4
  }

  function Utf8Length(s: string): nat {
    if s == [] then 0 else Utf8Length(s[..|s| - 1]) + Utf8Width(s[|s| - 1])
  }

  lemma {:induction false} Utf8LengthAtLeastChars(s: string)
    ensures Utf8Length(s) >= |s|
  {
    if s != [] {
      Utf8LengthAtLeastChars(s[..|s| - 1]);
    }
  }

  /** Every cluster takes at least one byte, so the byte length of a row's
      string is never smaller than its cluster count. */
  lemma ByteLengthAtLeastCount(gs: seq<Grapheme>)
    ensures Utf8Length(Concat(gs)) >= |gs|
  {
    ConcatLength(gs);
    Utf8LengthAtLeastChars(Concat(gs));
  }

  // ---------------------------------------------------------------------------
  // Segmentation into clusters: a simplified form of Annex #29.

  /** Control characters (C0 and DEL), including CR, LF and tab. */
  predicate IsControl(c: char) {
    c as int < 0x20 || c as int == 0x7F
  }

  /** Characters that extend the preceding cluster: combining diacritical
      marks, the zero-width joiner and the variation selectors. */
  predicate IsExtend(c: char) {
    (0x300 <= c as int <= 0x36F) || c as int == 0x200D || (0xFE00 <= c as int <= 0xFE0F)
  }

  /** No break between CR and LF (GB3); no break before an extending
      character unless the cluster so far ends in a control (GB4, GB9). */
  predicate JoinsCluster(g: Grapheme, c: char) {
    (g == "\r" && c == '\n') || (IsExtend(c) && !IsControl(g[|g| - 1]))
  }

  /** The clusters of s, in order; concatenated they give back s. */
  function Segment(s: string): (gs: seq<Grapheme>)
    ensures Concat(gs) == s
    ensures |gs| <= |s|
  {
    if s == [] then []
    else
      var init := Segment(s[..|s| - 1]);
      var c := s[|s| - 1];
      if init != [] && JoinsCluster(init[|init| - 1], c) then
        var last := init[|init| - 1];
        assert IsCluster(last + [c]);
        var gs := init[..|init| - 1] + [last + [c]];
        assert gs[..|gs| - 1] == init[..|init| - 1];
        assert Concat(gs) == Concat(init[..|init| - 1]) + last + [c];
        assert s == s[..|s| - 1] + [c];
        gs
      else
        var gs := init + [Unit(c)];
        assert gs[..|gs| - 1] == init;
        assert s == s[..|s| - 1] + [c];
        gs
  }
}
