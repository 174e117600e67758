/**
 * One line of the document: its string, held as its grapheme clusters, and a
 * cached cluster count that every mutation writes back.
 */
module Rows {
  import opened Graphemes

  // ---------------------------------------------------------------------------
  // Specification of the per-row edits on cluster sequences.

  /** The clusters after inserting c before cluster i, or at the end when i is
      out of range. */
  function Inserted(g: seq<Grapheme>, i: nat, c: char): (r: seq<Grapheme>)
    ensures |r| == |g| + 1
    ensures var k := if i < |g| then i else |g|;
      r[k] == Unit(c) && r[..k] == g[..k] && r[k + 1..] == g[k..]
  {
    if i >= |g| then g + [Unit(c)] else g[..i] + [Unit(c)] + g[i..]
  }

  /** The clusters after removing cluster i; unchanged when i is out of range. */
  function Deleted(g: seq<Grapheme>, i: nat): (r: seq<Grapheme>)
    ensures i >= |g| ==> r == g
    ensures i < |g| ==> |r| == |g| - 1 && r[..i] == g[..i] && r[i..] == g[i + 1..]
  {
    if i >= |g| then g else g[..i] + g[i + 1..]
  }

  /** The first min(i, |g|) clusters, kept by a split at i. */
  function Head(g: seq<Grapheme>, i: nat): (h: seq<Grapheme>)
    ensures |h| == if i < |g| then i else |g|
    ensures forall k :: 0 <= k < |h| ==> h[k] == g[k]
  {
    if i < |g| then g[..i] else g
  }

  /** The clusters from index min(i, |g|) on, returned by a split at i. */
  function Tail(g: seq<Grapheme>, i: nat): (t: seq<Grapheme>)
    ensures |t| == if i < |g| then |g| - i else 0
    ensures forall k :: 0 <= k < |t| ==> t[k] == g[|g| - |t| + k]
  {
    if i < |g| then g[i..] else []
  }

  /** A cluster as displayed: a tab becomes a single space. */
  function Display(g: Grapheme): (s: string)
    ensures '\t' !in s
    ensures |s| == |g|
  {
    if g == "\t" then " " else g
  }

  /** The displayed text of a run of clusters. */
  function Shown(gs: seq<Grapheme>): string {
    if gs == [] then [] else Shown(gs[..|gs| - 1]) + Display(gs[|gs| - 1])
  }

  lemma ShownSnoc(g: seq<Grapheme>, lo: nat, i: nat)
    requires lo <= i < |g|
    ensures Shown(g[lo..i + 1]) == Shown(g[lo..i]) + Display(g[i])
  {
    assert g[lo..i + 1][..i - lo] == g[lo..i];
  }

  /** The window of clusters a render of [start, end) shows. */
  function Window(g: seq<Grapheme>, start: nat, end: nat): (w: seq<Grapheme>)
    ensures start >= end ==> w == []
    ensures var hi := if end < |g| then end else |g|;
      var lo := if start < hi then start else hi;
      w == g[lo..hi]
  {
    var hi := if end < |g| then end else |g|;
    if start < hi then g[start..hi] else []
  }

  lemma WindowOfClamps(g: seq<Grapheme>, start: nat, end: nat, lo: nat, hi: nat)
    requires hi == (if end < |g| then end else |g|)
    requires lo == (if start < hi then start else hi)
    ensures Window(g, start, end) == g[lo..hi]
  {
  }

  // ---------------------------------------------------------------------------
  // Properties of the specification.

  /** Deleting the inserted cluster gives the row back. */
  lemma InsertThenDelete(g: seq<Grapheme>, i: nat, c: char)
    ensures Deleted(Inserted(g, i, c), if i < |g| then i else |g|) == g
  {
    var k := if i < |g| then i else |g|;
    var r := Inserted(g, i, c);
    assert r[..k] + r[k + 1..] == g[..k] + g[k..];
    assert g[..k] + g[k..] == g;
  }

  /** A delete at i followed by an insert of c at i changes cluster i alone:
      it becomes c. */
  lemma DeleteThenInsert(g: seq<Grapheme>, i: nat, c: char)
    requires i < |g|
    ensures Inserted(Deleted(g, i), i, c) == g[i := Unit(c)]
  {
    var d := Deleted(g, i);
    if i < |d| {
      assert d[..i] + [Unit(c)] + d[i..] == g[..i] + [Unit(c)] + g[i + 1..];
    } else {
      assert d + [Unit(c)] == g[..i] + [Unit(c)];
    }
    assert g[..i] + [Unit(c)] + g[i + 1..] == g[i := Unit(c)];
  }

  /** Re-inserting a deleted one-character cluster where it was gives the row
      back. */
  lemma DeleteThenReinsert(g: seq<Grapheme>, i: nat)
    requires i < |g| && |g[i]| == 1
    ensures Inserted(Deleted(g, i), i, g[i][0]) == g
  {
    DeleteThenInsert(g, i, g[i][0]);
    assert Unit(g[i][0]) == g[i];
  }

  /** Splitting loses and duplicates nothing. */
  lemma SplitRejoins(g: seq<Grapheme>, i: nat)
    ensures Head(g, i) + Tail(g, i) == g
    ensures |Head(g, i)| + |Tail(g, i)| == |g|
  {
    if i < |g| {
      assert g[..i] + g[i..] == g;
    }
  }

  lemma {:induction false} ShownHasNoTab(gs: seq<Grapheme>)
    ensures '\t' !in Shown(gs)
    ensures |Shown(gs)| == |Concat(gs)|
  {
    if gs != [] {
      ShownHasNoTab(gs[..|gs| - 1]);
    }
  }

  /** Rendering changes nothing but tabs: a window without tabs is shown as its
      own text. */
  lemma {:induction false} ShownWithoutTabs(gs: seq<Grapheme>)
    requires forall k :: 0 <= k < |gs| ==> gs[k] != "\t"
    ensures Shown(gs) == Concat(gs)
  {
    if gs != [] {
      ShownWithoutTabs(gs[..|gs| - 1]);
    }
  }

  // ---------------------------------------------------------------------------
  // The row itself.

  class Row {
    /** The row's string, as its sequence of clusters. */
    var graphemes: seq<Grapheme>
    /** The cached cluster count. */
    var len: nat

    ghost predicate Valid()
      reads this
    {
      len == |graphemes|
    }

    /** The row's string. */
    function Text(): string
      reads this
    {
      Concat(graphemes)
    }

    /** `Row::default`: the empty row. */
    constructor Default()
      ensures Valid() && graphemes == []
    {
      graphemes := [];
      len := 0;
    }

    /** A row built from a string with its clusters and count given, as the
        struct literal at the end of `split` does. */
    constructor (graphemes: seq<Grapheme>, len: nat)
      ensures this.graphemes == graphemes && this.len == len
    {
      this.graphemes := graphemes;
      this.len := len;
    }

    /** `Row::from`: the row holding slice, with its cluster count cached. */
    constructor From(slice: string)
      ensures Valid()
      ensures Text() == slice && graphemes == Segment(slice)
    {
      graphemes := Segment(slice);
      len := |Segment(slice)|;
    }

    function Len(): (n: nat)
      reads this
      requires Valid()
      ensures n == |graphemes|
    {
      len
    }

    function IsEmpty(): (b: bool)
      reads this
      requires Valid()
      ensures b <==> graphemes == []
    {
      len == 0
    }

    /** The displayed text of clusters [start, end): end is first clamped to the
        string's byte length, start to end, and tabs become spaces. */
    method Render(start: nat, end: nat) returns (result: string)
      ensures result == Shown(Window(graphemes, start, end))
      ensures '\t' !in result
      ensures start >= end ==> result == []
    {
      var gs := graphemes;
      var bytes := Utf8Length(Concat(gs));
      ByteLengthAtLeastCount(gs);
      var e := if end < bytes then end else bytes;
      var s := if start < e then start else e;
      // skip(s).take(e - s) over the clusters visits [lo, hi)
      var hi := if e < |gs| then e else |gs|;
      var lo := if s < hi then s else hi;
      assert hi == (if end < |gs| then end else |gs|);
      assert lo == (if start < hi then start else hi);
      result := [];
      var i := lo;
      while i < hi
        invariant lo <= i <= hi
        invariant result == Shown(gs[lo..i])
      {
        ShownSnoc(gs, lo, i);
        result := result + Display(gs[i]);
        i := i + 1;
      }
      WindowOfClamps(gs, start, end, lo, hi);
      ShownHasNoTab(gs[lo..hi]);
    }

    /** Inserts c before cluster index, or appends it when index >= len. */
    method Insert(index: nat, c: char)
      requires Valid()
      modifies this
      ensures Valid()
      ensures graphemes == Inserted(old(graphemes), index, c)
    {
      if index >= len {
        graphemes := graphemes + [Unit(c)];
        len := len + 1;
        return;
      }
      var result: seq<Grapheme> := [];
      var length := 0;
      var i := 0;
      while i < |graphemes|
        invariant 0 <= i <= |graphemes|
        invariant result == if i <= index then graphemes[..i]
                            else graphemes[..index] + [Unit(c)] + graphemes[index..i]
        invariant length == |result|
      {
        length := length + 1;
        if i == index {
          length := length + 1;
          result := result + [Unit(c)];
        }
        result := result + [graphemes[i]];
        i := i + 1;
      }
      assert graphemes[..|graphemes|] == graphemes;
      len := length;
      graphemes := result;
    }

    /** Removes cluster index; does nothing when index >= len. */
    method Delete(index: nat)
      requires Valid()
      modifies this
      ensures Valid()
      ensures graphemes == Deleted(old(graphemes), index)
    {
      if index >= len {
        return;
      }
      var result: seq<Grapheme> := [];
      var length := 0;
      var i := 0;
      while i < |graphemes|
        invariant 0 <= i <= |graphemes|
        invariant result == if i <= index then graphemes[..i]
                            else graphemes[..index] + graphemes[index + 1..i]
        invariant length == |result|
      {
        if i != index {
          length := length + 1;
          result := result + [graphemes[i]];
        }
        i := i + 1;
      }
      len := length;
      graphemes := result;
    }

    /** Keeps the first index clusters and returns a new row with the rest. */
    method Split(index: nat) returns (tail: Row)
      modifies this
      ensures fresh(tail)
      ensures Valid() && tail.Valid()
      ensures graphemes == Head(old(graphemes), index)
      ensures tail.graphemes == Tail(old(graphemes), index)
    {
      var row: seq<Grapheme> := [];
      var length := 0;
      var splittedRow: seq<Grapheme> := [];
      var splittedLength := 0;
      var i := 0;
      while i < |graphemes|
        invariant 0 <= i <= |graphemes|
        invariant row == graphemes[..if i < index then i else index]
        invariant splittedRow == if i <= index then [] else graphemes[index..i]
        invariant length == |row| && splittedLength == |splittedRow|
      {
        if i < index {
          length := length + 1;
          row := row + [graphemes[i]];
        } else {
          splittedLength := splittedLength + 1;
          splittedRow := splittedRow + [graphemes[i]];
        }
        i := i + 1;
      }
      assert graphemes[..|graphemes|] == graphemes;
      graphemes := row;
      len := length;
      tail := new Row(splittedRow, splittedLength);
    }

    /** Appends other's string and adds its cached count to this one's. */
    method Append(other: Row)
      modifies this
      ensures graphemes == old(graphemes) + old(other.graphemes)
      ensures len == old(len) + old(other.len)
      ensures old(Valid()) && old(other.Valid()) ==> Valid()
      ensures Text() == old(Text()) + old(other.Text())
    {
      ConcatAppend(graphemes, other.graphemes);
      graphemes := graphemes + other.graphemes;
      len := len + other.len;
    }
  }
}
