/**
 * The on-disk form of a document: rows joined by a single line feed with no
 * trailing terminator, and the line splitting applied when a file is loaded
 * (the behaviour of Rust's `str::lines`).
 */
module Persistence {

  /** Index of the first line feed in t, or |t| when there is none. */
  function NewlineIndex(t: string): (k: nat)
    ensures k <= |t|
    ensures forall j :: 0 <= j < k ==> t[j] != '\n'
    ensures k < |t| ==> t[k] == '\n'
  {
    if t == [] then 0 else if t[0] == '\n' then 0 else 1 + NewlineIndex(t[1..])
  }

  predicate EndsWithCR(s: string) {
    |s| > 0 && s[|s| - 1] == '\r'
  }

  /** A line ended by "\r\n" loses its carriage return along with the feed. */
  function StripCR(line: string): (r: string)
    ensures !EndsWithCR(line) ==> r == line
  {
    if EndsWithCR(line) then line[..|line| - 1] else line
  }

  /** The lines of t: split at each line feed, a carriage return just before
      a feed dropped with it, and a final terminator optional, so that a text
      ending in a line feed yields no empty last line. The last line keeps a
      carriage return that no line feed follows. */
  function Lines(t: string): (ls: seq<string>)
    ensures forall i :: 0 <= i < |ls| ==> '\n' !in ls[i]
    ensures t == [] <==> ls == []
    decreases |t|
  {
    if t == [] then []
    else
      var k := NewlineIndex(t);
      if k == |t| then [t]
      else [StripCR(t[..k])] + Lines(t[k + 1..])
  }

  /** The row texts joined by a single line feed, with no trailing one. */
  function Join(ts: seq<string>): string {
    if ts == [] then [] else if |ts| == 1 then ts[0] else ts[0] + "\n" + Join(ts[1..])
  }

  /** The successive `write_all` calls with which save writes the row texts:
      each row, and a line feed after every row but the last. */
  function Writes(ts: seq<string>): (ws: seq<string>)
    ensures |ws| == if ts == [] then 0 else 2 * |ts| - 1
  {
    if |ts| <= 1 then ts
    else Writes(ts[..|ts| - 1]) + ["\n", ts[|ts| - 1]]
  }

  /** The concatenation of the written chunks: the file's content. */
  function Flat(ws: seq<string>): string {
    if ws == [] then [] else Flat(ws[..|ws| - 1]) + ws[|ws| - 1]
  }

  /** A row sequence that saving and loading gives back unchanged. */
  predicate Loadable(ts: seq<string>) {
    && (forall i :: 0 <= i < |ts| ==> '\n' !in ts[i])
    && (forall i :: 0 <= i < |ts| - 1 ==> !EndsWithCR(ts[i]))
    && (ts != [] ==> ts[|ts| - 1] != [])
  }

  // ---------------------------------------------------------------------------

  lemma NewlineAfter(a: string, t: string)
    requires '\n' !in a && |a| < |t| && t[..|a|] == a && t[|a|] == '\n'
    ensures NewlineIndex(t) == |a|
  {
    var k := NewlineIndex(t);
    assert forall j :: 0 <= j < |a| ==> t[j] == a[j];
  }

  lemma {:induction false} FlatAppend(a: seq<string>, b: seq<string>)
    ensures Flat(a + b) == Flat(a) + Flat(b)
    decreases |b|
  {
    if b == [] {
      assert a + b == a;
    } else {
      assert (a + b)[..|a + b| - 1] == a + b[..|b| - 1];
      FlatAppend(a, b[..|b| - 1]);
    }
  }

  lemma {:induction false} JoinSnoc(ts: seq<string>, t: string)
    requires ts != []
    ensures Join(ts + [t]) == Join(ts) + "\n" + t
    decreases |ts|
  {
    if |ts| > 1 {
      assert (ts + [t])[1..] == ts[1..] + [t];
      JoinSnoc(ts[1..], t);
    }
  }

  /** What save writes, chunk by chunk, is the joined text. */
  lemma {:induction false} WritesJoin(ts: seq<string>)
    ensures Flat(Writes(ts)) == Join(ts)
    decreases |ts|
  {
    if |ts| == 1 {
      assert Flat(ts) == Flat([]) + ts[0];
    } else if |ts| > 1 {
      var init := ts[..|ts| - 1];
      WritesJoin(init);
      FlatAppend(Writes(init), ["\n", ts[|ts| - 1]]);
      assert Flat(["\n", ts[|ts| - 1]]) == Flat(["\n"]) + ts[|ts| - 1];
      assert Flat(["\n"]) == Flat([]) + "\n";
      JoinSnoc(init, ts[|ts| - 1]);
      assert init + [ts[|ts| - 1]] == ts;
    }
  }

  /** A line without a terminator inside it, followed by a line feed, is
      split off whole. */
  lemma LinesCons(a: string, rest: string)
    requires '\n' !in a && !EndsWithCR(a)
    ensures Lines(a + "\n" + rest) == [a] + Lines(rest)
  {
    var t := a + "\n" + rest;
    NewlineAfter(a, t);
    assert t[..|a|] == a;
    assert t[|a| + 1..] == rest;
  }

  /** Loading a saved document gives its rows back, provided no row holds a
      line feed, no row but the last ends in a carriage return and the last
      row is not empty. */
  lemma {:induction false} LinesOfJoin(ts: seq<string>)
    requires Loadable(ts)
    ensures Lines(Join(ts)) == ts
    decreases |ts|
  {
    if |ts| == 1 {
      assert '\n' !in ts[0];
    } else if |ts| > 1 {
      LoadableTail(ts);
      LinesCons(ts[0], Join(ts[1..]));
      LinesOfJoin(ts[1..]);
      assert [ts[0]] + ts[1..] == ts;
    }
  }

  lemma JoinCons(a: string, ts: seq<string>)
    requires ts != []
    ensures Join([a] + ts) == a + "\n" + Join(ts)
  {
    assert ([a] + ts)[1..] == ts;
  }

  /** The text before the first line feed and the text after it. */
  lemma SplitAtNewline(t: string) returns (a: string, rest: string)
    requires NewlineIndex(t) < |t|
    ensures t == a + "\n" + rest && a == t[..NewlineIndex(t)]
    ensures '\n' !in a
    ensures forall c :: c in a || c in rest ==> c in t
  {
    var k := NewlineIndex(t);
    a, rest := t[..k], t[k + 1..];
    assert t == a + "\n" + rest;
  }

  /** Saving a loaded text writes it back unchanged, provided it holds no
      carriage return and does not end in a line feed. */
  lemma {:induction false} JoinOfLines(t: string)
    requires '\r' !in t
    requires t == [] || t[|t| - 1] != '\n'
    ensures Join(Lines(t)) == t
    decreases |t|
  {
    if t != [] && NewlineIndex(t) < |t| {
      var a, rest := SplitAtNewline(t);
      assert !EndsWithCR(a) by {
        assert a != [] ==> a[|a| - 1] in a;
      }
      LinesCons(a, rest);
      assert rest != [] && rest[|rest| - 1] == t[|t| - 1];
      JoinOfLines(rest);
      JoinCons(a, Lines(rest));
    }
  }

  lemma LoadableTail(ts: seq<string>)
    requires ts != [] && Loadable(ts)
    ensures Loadable(ts[1..])
    ensures '\n' !in ts[0] && (|ts| > 1 ==> !EndsWithCR(ts[0]))
    ensures ts[1..] != [] ==> ts[1..][|ts| - 2] == ts[|ts| - 1]
  {
  }

  /** A terminated line on its own is read back as that line. */
  lemma LinesOfTerminated(a: string)
    requires '\n' !in a && !EndsWithCR(a)
    ensures Lines(a + "\n") == [a]
  {
    LinesCons(a, []);
    assert a + "\n" + [] == a + "\n";
  }

  /** The first row of a terminated join is split off whole. */
  lemma LinesOfTerminatedCons(a: string, rest: seq<string>)
    requires '\n' !in a && !EndsWithCR(a) && rest != []
    ensures Lines(Join([a] + rest) + "\n") == [a] + Lines(Join(rest) + "\n")
  {
    JoinCons(a, rest);
    var r := Join(rest);
    assert Join([a] + rest) + "\n" == a + "\n" + (r + "\n");
    LinesCons(a, r + "\n");
  }

  /** A final line feed after the joined rows is read as a terminator. */
  lemma {:induction false} LinesOfTerminatedJoin(ts: seq<string>)
    requires ts != [] && Loadable(ts) && !EndsWithCR(ts[|ts| - 1])
    ensures Lines(Join(ts) + "\n") == ts
    decreases |ts|
  {
    LoadableTail(ts);
    if |ts| == 1 {
      LinesOfTerminated(ts[0]);
    } else {
      var rest := ts[1..];
      LinesOfTerminatedJoin(rest);
      LinesOfTerminatedCons(ts[0], rest);
      assert [ts[0]] + rest == ts;
    }
  }

  /** A trailing empty row does not survive a save and a load: the joined
      text then ends in a line feed, which the loader treats as a terminator. */
  lemma TrailingEmptyRowIsLost(ts: seq<string>)
    requires ts != [] && Loadable(ts) && !EndsWithCR(ts[|ts| - 1])
    ensures Join(ts + [[]]) == Join(ts) + "\n"
    ensures Lines(Join(ts + [[]])) == ts
  {
    JoinSnoc(ts, []);
    LinesOfTerminatedJoin(ts);
  }

  /** The smallest instance: a document of one empty row saves to the empty
      file, which loads as no rows at all. */
  lemma SingleEmptyRowIsLost()
    ensures Join([[]]) == [] && Lines(Join([[]])) == []
  {
  }

  // ---------------------------------------------------------------------------
  // The writes of save, one at a time.

  /** The file's content after the first k writes of save. */
  ghost function Written(ts: seq<string>, k: nat): string
    requires k <= |Writes(ts)|
  {
    Flat(Writes(ts)[..k])
  }

  /** Write k = 2i is row i's text. */
  lemma RowWritten(ts: seq<string>, i: nat, k: nat)
    requires i < |ts| && k == 2 * i
    ensures k < |Writes(ts)|
    ensures Written(ts, k + 1) == Written(ts, k) + ts[i]
  {
    WritesRow(ts, i);
    FlatSnoc(Writes(ts), k);
  }

  /** Write k = 2i + 1 is the line feed after row i, when a row follows. */
  lemma FeedWritten(ts: seq<string>, i: nat, k: nat)
    requires i + 1 < |ts| && k == 2 * i + 1
    ensures k < |Writes(ts)|
    ensures Written(ts, k + 1) == Written(ts, k) + "\n"
  {
    WritesFeedAt(ts, i);
    FlatSnoc(Writes(ts), k);
  }

  lemma AllWritten(ts: seq<string>)
    ensures Written(ts, |Writes(ts)|) == Join(ts)
  {
    WritesJoin(ts);
    assert Writes(ts)[..|Writes(ts)|] == Writes(ts);
  }

  lemma FlatSnoc(ws: seq<string>, k: nat)
    requires k < |ws|
    ensures Flat(ws[..k + 1]) == Flat(ws[..k]) + ws[k]
  {
    assert ws[..k + 1][..k] == ws[..k];
  }

  /** Write 2i is row i's text. */
  lemma {:induction false} WritesRow(ts: seq<string>, i: nat)
    requires i < |ts|
    ensures 2 * i < |Writes(ts)| && Writes(ts)[2 * i] == ts[i]
    decreases |ts|
  {
    if |ts| > 1 {
      var init := ts[..|ts| - 1];
      if i < |init| {
        WritesRow(init, i);
      }
    }
  }

  /** Write 2i + 1 is the line feed between rows i and i + 1. */
  lemma {:induction false} WritesFeedAt(ts: seq<string>, i: nat)
    requires i + 1 < |ts|
    ensures 2 * i + 1 < |Writes(ts)| && Writes(ts)[2 * i + 1] == "\n"
    decreases |ts|
  {
    var init := ts[..|ts| - 1];
    if i + 1 < |init| {
      WritesFeedAt(init, i);
    }
  }
}
