/**
 * The document: the ordered rows of the file being edited, its file name and
 * whether it changed since it was opened or saved.
 */
module Documents {
  import opened Wrappers
  import opened Graphemes
  import opened Rows
  import opened Persistence
  import opened Editors

  /** An input/output failure, whatever its kind. */
  datatype IoError = IoError

  // ---------------------------------------------------------------------------
  // Specification of the multi-row edits on the rows' cluster sequences.

  /** Row y joined with the row after it, later rows moving up by one. */
  function Merged(lines: seq<seq<Grapheme>>, y: nat): (r: seq<seq<Grapheme>>)
    requires y + 1 < |lines|
    ensures |r| == |lines| - 1
    ensures r[y] == lines[y] + lines[y + 1]
    ensures forall i :: 0 <= i < y ==> r[i] == lines[i]
    ensures forall i :: y < i < |r| ==> r[i] == lines[i + 1]
  {
    lines[..y] + [lines[y] + lines[y + 1]] + lines[y + 2..]
  }

  /** Row y split at cluster x, its tail becoming a new row just after it. */
  function SplitAt(lines: seq<seq<Grapheme>>, y: nat, x: nat): (r: seq<seq<Grapheme>>)
    requires y < |lines|
    ensures |r| == |lines| + 1
    ensures r[y] + r[y + 1] == lines[y]
    ensures r[y] == Head(lines[y], x) && r[y + 1] == Tail(lines[y], x)
    ensures forall i :: 0 <= i < y ==> r[i] == lines[i]
    ensures forall i :: y + 1 < i < |r| ==> r[i] == lines[i - 1]
  {
    SplitRejoins(lines[y], x);
    lines[..y] + [Head(lines[y], x), Tail(lines[y], x)] + lines[y + 1..]
  }

  /** Merged as a removal of row y + 1 followed by a cluster update of row y. */
  lemma MergedSpliced(lines: seq<seq<Grapheme>>, y: nat)
    requires y + 1 < |lines|
    ensures Merged(lines, y) == (lines[..y + 1] + lines[y + 2..])[y := lines[y] + lines[y + 1]]
  {
    var t := lines[..y + 1] + lines[y + 2..];
    assert t[..y] == lines[..y] && t[y + 1..] == lines[y + 2..];
  }

  /** SplitAt as a cluster update of row y followed by an insertion after it. */
  lemma SplitAtSpliced(lines: seq<seq<Grapheme>>, y: nat, x: nat)
    requires y < |lines|
    ensures var mid := lines[y := Head(lines[y], x)];
      SplitAt(lines, y, x) == mid[..y + 1] + [Tail(lines[y], x)] + mid[y + 1..]
  {
    var mid := lines[y := Head(lines[y], x)];
    assert mid[..y + 1] == lines[..y] + [Head(lines[y], x)];
    assert mid[y + 1..] == lines[y + 1..];
  }

  /** A line break inside or at the end of a row, then a delete at the end
      of the shortened row, gives the rows back. */
  lemma SplitThenMerge(lines: seq<seq<Grapheme>>, y: nat, x: nat)
    requires y < |lines| && x <= |lines[y]|
    ensures |SplitAt(lines, y, x)[y]| == x
    ensures Merged(SplitAt(lines, y, x), y) == lines
  {
    var s := SplitAt(lines, y, x);
    var m := Merged(s, y);
    assert |m| == |lines|;
    forall i | 0 <= i < |m| ensures m[i] == lines[i] {
      if i > y {
        assert m[i] == s[i + 1];
      }
    }
  }

  /** A delete at the end of a row that has a successor, then a line break at
      the same place, gives the rows back. */
  lemma MergeThenSplit(lines: seq<seq<Grapheme>>, y: nat)
    requires y + 1 < |lines|
    ensures SplitAt(Merged(lines, y), y, |lines[y]|) == lines
  {
    var m := Merged(lines, y);
    var s := SplitAt(m, y, |lines[y]|);
    assert s[y] == lines[y] && s[y + 1] == lines[y + 1];
    assert |s| == |lines|;
    forall i | 0 <= i < |s| ensures s[i] == lines[i] {
      if i > y + 1 {
        assert s[i] == m[i - 1];
      }
    }
  }

  /** The rows' texts, in order. */
  function Texts(lines: seq<seq<Grapheme>>): (ts: seq<string>)
    ensures |ts| == |lines|
  {
    seq(|lines|, i requires 0 <= i < |lines| => Concat(lines[i]))
  }

  /** The rows a loaded text is split into, each row one line's clusters. */
  function LoadedLines(ls: seq<string>): (lines: seq<seq<Grapheme>>)
    ensures |lines| == |ls|
  {
    seq(|ls|, i requires 0 <= i < |ls| => Segment(ls[i]))
  }

  /** Loading keeps every line's text: the rows built from the lines read
      hold exactly those lines. */
  lemma LoadedTexts(ls: seq<string>)
    ensures Texts(LoadedLines(ls)) == ls
  {
    var ts := Texts(LoadedLines(ls));
    forall i | 0 <= i < |ls| ensures ts[i] == ls[i] {
      assert ts[i] == Concat(Segment(ls[i]));
    }
  }

  // ---------------------------------------------------------------------------
  // The document's rows against its lines.

  /** No row object appears twice. */
  predicate Distinct(rs: seq<Row>) {
    forall i, j :: 0 <= i < j < |rs| ==> rs[i] != rs[j]
  }

  /** Each row is consistent and holds the clusters of its line. */
  ghost predicate Holds(rs: seq<Row>, ls: seq<seq<Grapheme>>)
    reads rs
  {
    |rs| == |ls| && forall i :: 0 <= i < |rs| ==> rs[i].Valid() && rs[i].graphemes == ls[i]
  }

  /** Every row is one of s. */
  predicate Owned(rs: seq<Row>, s: set<Row>) {
    forall i :: 0 <= i < |rs| ==> rs[i] in s
  }

  lemma OwnedInsert(rs: seq<Row>, s: set<Row>, k: nat, n: Row)
    requires Owned(rs, s) && k <= |rs|
    ensures Owned(rs[..k] + [n] + rs[k..], s + {n})
  {
    var t := rs[..k] + [n] + rs[k..];
    forall i | 0 <= i < |t| ensures t[i] in s + {n} {
      if i < k {
        assert t[i] == rs[i];
      } else if i > k {
        assert t[i] == rs[i - 1];
      }
    }
  }

  lemma OwnedRemove(rs: seq<Row>, s: set<Row>, k: nat)
    requires Owned(rs, s) && k < |rs|
    ensures Owned(rs[..k] + rs[k + 1..], s)
  {
    var t := rs[..k] + rs[k + 1..];
    forall i | 0 <= i < |t| ensures t[i] in s {
      assert t[i] == rs[if i < k then i else i + 1];
    }
  }

  lemma DistinctInsert(rs: seq<Row>, k: nat, n: Row)
    requires Distinct(rs) && k <= |rs| && n !in rs
    ensures Distinct(rs[..k] + [n] + rs[k..])
  {
    var t := rs[..k] + [n] + rs[k..];
    forall i, j | 0 <= i < j < |t| ensures t[i] != t[j] {
      if j < k || i > k {
        assert t[i] == rs[if i < k then i else i - 1] && t[j] == rs[if j < k then j else j - 1];
      } else if i == k {
        assert t[j] == rs[j - 1];
      } else if j == k {
        assert t[i] == rs[i];
      } else {
        assert t[i] == rs[i] && t[j] == rs[j - 1];
      }
    }
  }

  lemma DistinctSnoc(rs: seq<Row>, n: Row)
    requires Distinct(rs) && n !in rs
    ensures Distinct(rs + [n])
  {
  }

  lemma DistinctRemove(rs: seq<Row>, k: nat)
    requires Distinct(rs) && k < |rs|
    ensures Distinct(rs[..k] + rs[k + 1..])
  {
    var t := rs[..k] + rs[k + 1..];
    forall i, j | 0 <= i < j < |t| ensures t[i] != t[j] {
      assert t[i] == rs[if i < k then i else i + 1] && t[j] == rs[if j < k then j else j + 1];
    }
  }

  /** Holds survives loading the next line as a new last row. */
  lemma HoldsLoaded(rs: seq<Row>, values: seq<string>, row: Row)
    requires |rs| < |values| && Holds(rs, LoadedLines(values)[..|rs|])
    requires row.Valid() && row.graphemes == Segment(values[|rs|])
    ensures Holds(rs + [row], LoadedLines(values)[..|rs| + 1])
  {
    var ls := LoadedLines(values);
    assert ls[..|rs| + 1] == ls[..|rs|] + [row.graphemes];
    HoldsInsert(rs, ls[..|rs|], |rs|, row);
    assert rs[..|rs|] + [row] + rs[|rs|..] == rs + [row];
  }

  lemma OwnedSnoc(rs: seq<Row>, s: set<Row>, n: Row)
    requires Owned(rs, s)
    ensures Owned(rs + [n], s + {n})
  {
  }

  /** Holds survives dropping row k along with its line. */
  lemma HoldsRemove(rs: seq<Row>, ls: seq<seq<Grapheme>>, k: nat)
    requires Holds(rs, ls) && k < |rs|
    ensures Holds(rs[..k] + rs[k + 1..], ls[..k] + ls[k + 1..])
  {
    var t, u := rs[..k] + rs[k + 1..], ls[..k] + ls[k + 1..];
    forall i | 0 <= i < |t| ensures t[i].Valid() && t[i].graphemes == u[i] {
      var j := if i < k then i else i + 1;
      assert t[i] == rs[j] && u[i] == ls[j];
    }
  }

  /** Holds survives inserting a consistent row at k along with its clusters. */
  lemma HoldsInsert(rs: seq<Row>, ls: seq<seq<Grapheme>>, k: nat, row: Row)
    requires Holds(rs, ls) && k <= |rs| && row.Valid()
    ensures Holds(rs[..k] + [row] + rs[k..], ls[..k] + [row.graphemes] + ls[k..])
  {
    var t, u := rs[..k] + [row] + rs[k..], ls[..k] + [row.graphemes] + ls[k..];
    forall i | 0 <= i < |t| ensures t[i].Valid() && t[i].graphemes == u[i] {
      if i < k {
        assert t[i] == rs[i] && u[i] == ls[i];
      } else if i > k {
        assert t[i] == rs[i - 1] && u[i] == ls[i - 1];
      }
    }
  }

  /** When every row but row y still holds its line, the rows hold the lines
      with line y replaced by row y's clusters. */
  lemma HoldsUpdate(rs: seq<Row>, ls: seq<seq<Grapheme>>, y: nat)
    requires |rs| == |ls| && y < |rs| && rs[y].Valid()
    requires forall i :: 0 <= i < |rs| && i != y ==> rs[i].Valid() && rs[i].graphemes == ls[i]
    ensures Holds(rs, ls[y := rs[y].graphemes])
  {
  }

  /** Builds one fresh row per line, each holding the line's clusters; made
      is the set of rows built. */
  method LoadRows(values: seq<string>) returns (rs: seq<Row>, ghost made: set<Row>)
    ensures Holds(rs, LoadedLines(values)) && Distinct(rs)
    ensures fresh(made) && Owned(rs, made)
  {
    rs, made := [], {};
    var i := 0;
    while i < |values|
      invariant 0 <= i <= |values| && |rs| == i
      invariant Holds(rs, LoadedLines(values)[..i]) && Distinct(rs)
      invariant fresh(made) && Owned(rs, made)
    {
      var row := new Row.From(values[i]);
      HoldsLoaded(rs, values, row);
      DistinctSnoc(rs, row);
      OwnedSnoc(rs, made, row);
      rs, made := rs + [row], made + {row};
      i := i + 1;
    }
    assert LoadedLines(values)[..i] == LoadedLines(values);
  }

  // ---------------------------------------------------------------------------

  class Document {
    var rows: seq<Row>
    var filename: Option<string>
    var dirty: bool
    /** The clusters of each row, in order. */
    ghost var lines: seq<seq<Grapheme>>
    /** The row objects the document owns: every row it holds is one. */
    ghost var Repr: set<Row>

    ghost predicate Valid()
      reads this, rows
    {
      Holds(rows, lines) && Distinct(rows) && Owned(rows, Repr)
    }

    /** `Document::default`: no rows, no file name, not dirty. */
    constructor Default()
      ensures Valid() && lines == [] && filename == None && !dirty && Repr == {}
    {
      rows := [];
      filename := None;
      dirty := false;
      lines := [];
      Repr := {};
    }

    /** Opens a document from the outcome of reading the named file: one row
        per line of the text read, named after the file and not dirty. */
    static method Open(name: string, read: Result<string, IoError>) returns (r: Result<Document, IoError>)
      ensures read.Err? ==> r == Err(read.error)
      ensures read.Ok? ==> r.Ok? && fresh(r.value) && fresh(r.value.Repr) && r.value.Valid()
      ensures read.Ok? ==> r.value.lines == LoadedLines(Lines(read.value))
      ensures read.Ok? ==> Texts(r.value.lines) == Lines(read.value)
      ensures read.Ok? ==> r.value.filename == Some(name) && !r.value.dirty
    {
      if read.Err? {
        return Err(read.error);
      }
      var values := Lines(read.value);
      var rs, made := LoadRows(values);
      LoadedTexts(values);
      var doc := new Document.Default();
      doc.rows := rs;
      doc.lines := LoadedLines(values);
      doc.Repr := made;
      doc.filename := Some(name);
      r := Ok(doc);
    }

    function Len(): (n: nat)
      reads this, rows
      requires Valid()
      ensures n == |lines|
    {
      |rows|
    }

    function IsEmpty(): (b: bool)
      reads this, rows
      requires Valid()
      ensures b <==> lines == []
    {
      |rows| == 0
    }

    /** The row at index, absent when the index is out of range. */
    function RowAt(index: nat): (r: Option<Row>)
      reads this, rows
      requires Valid()
      ensures r.None? <==> index >= |lines|
      ensures r.Some? ==> r.value.Valid() && r.value.graphemes == lines[index]
    {
      if index < |rows| then Some(rows[index]) else None
    }

    /** Every row but row y is another object than row y. */
    lemma OthersUntouched(y: nat)
      requires Valid() && y < |rows|
      ensures forall i :: 0 <= i < |rows| && i != y ==> rows[i] != rows[y]
    {
      forall i | 0 <= i < |rows| && i != y ensures rows[i] != rows[y] {
        if i < y { assert rows[i] != rows[y]; } else { assert rows[y] != rows[i]; }
      }
    }

    /** Inserts c at pos: into row pos.y, or as a new last row when pos.y is
        one past the last row; nothing happens further down. */
    method Insert(pos: Position, c: char)
      requires Valid()
      modifies this, Repr
      ensures fresh(Repr - old(Repr))
      ensures Valid() && filename == old(filename)
      ensures pos.y > |old(lines)| ==> lines == old(lines) && dirty == old(dirty)
      ensures pos.y == |old(lines)| ==> lines == old(lines) + [[Unit(c)]] && dirty
      ensures pos.y < |old(lines)| ==>
        lines == old(lines)[pos.y := Inserted(old(lines)[pos.y], pos.x, c)] && dirty
      ensures forall i :: 0 <= i < |old(rows)| ==> rows[i] == old(rows)[i]
    {
      if pos.y > |rows| {
        return;
      }
      dirty := true;
      if pos.y == |rows| {
        var row := new Row.Default();
        row.Insert(0, c);
        PushRow(row);
      } else {
        InsertInRow(pos.y, pos.x, c);
      }
    }

    /** Inserts c into row y at cluster x. */
    method InsertInRow(y: nat, x: nat, c: char)
      requires Valid() && y < |rows|
      modifies this, rows[y]
      ensures Valid() && rows == old(rows) && filename == old(filename) && dirty == old(dirty)
      ensures Repr == old(Repr)
      ensures lines == old(lines)[y := Inserted(old(lines)[y], x, c)]
    {
      var row := rows[y];
      OthersUntouched(y);
      row.Insert(x, c);
      HoldsUpdate(rows, lines, y);
      lines := lines[y := row.graphemes];
    }

    /** Deletes at pos: at the end of a row that has a successor the two rows
        are joined, otherwise the cluster at pos.x goes; beyond the last row
        nothing happens. */
    method Delete(pos: Position)
      requires Valid()
      modifies this, Repr
      ensures fresh(Repr - old(Repr))
      ensures Valid() && filename == old(filename)
      ensures pos.y >= |old(lines)| ==> lines == old(lines) && dirty == old(dirty)
      ensures pos.y < |old(lines)| ==> dirty
      ensures pos.y + 1 < |old(lines)| && pos.x == |old(lines)[pos.y]| ==>
        lines == Merged(old(lines), pos.y)
      ensures pos.y < |old(lines)| && !(pos.y + 1 < |old(lines)| && pos.x == |old(lines)[pos.y]|) ==>
        lines == old(lines)[pos.y := Deleted(old(lines)[pos.y], pos.x)]
    {
      if pos.y >= Len() {
        return;
      }
      dirty := true;
      if pos.x == rows[pos.y].Len() && pos.y + 1 < |rows| {
        JoinRows(pos.y);
      } else {
        DeleteInRow(pos.y, pos.x);
      }
    }

    /** Deletes the cluster at x from row y. */
    method DeleteInRow(y: nat, x: nat)
      requires Valid() && y < |rows|
      modifies this, rows[y]
      ensures Valid() && rows == old(rows) && filename == old(filename) && dirty == old(dirty)
      ensures Repr == old(Repr)
      ensures lines == old(lines)[y := Deleted(old(lines)[y], x)]
    {
      var row := rows[y];
      OthersUntouched(y);
      row.Delete(x);
      HoldsUpdate(rows, lines, y);
      lines := lines[y := row.graphemes];
    }

    /** Appends row y + 1 to row y and drops it from the document. */
    method JoinRows(y: nat)
      requires Valid() && y + 1 < |rows|
      modifies this, rows[y]
      ensures Valid() && filename == old(filename) && dirty == old(dirty)
      ensures lines == Merged(old(lines), y) && Repr == old(Repr)
    {
      var nextRow := rows[y + 1];
      OthersUntouched(y);
      DistinctRemove(rows, y + 1);
      HoldsRemove(rows, lines, y + 1);
      OwnedRemove(rows, Repr, y + 1);
      MergedSpliced(lines, y);
      ghost var merged := Merged(lines, y);
      rows := rows[..y + 1] + rows[y + 2..];
      lines := lines[..y + 1] + lines[y + 2..];
      var currentRow := rows[y];
      currentRow.Append(nextRow);
      HoldsUpdate(rows, lines, y);
      lines := merged;
    }

    /** Breaks the line at pos: row pos.y keeps its first pos.x clusters and
        the rest becomes the next row; one past the last row an empty row is
        appended; further down nothing happens. The dirty flag is left as it
        is. */
    method NewLine(pos: Position)
      requires Valid()
      modifies this, Repr
      ensures fresh(Repr - old(Repr))
      ensures Valid() && filename == old(filename) && dirty == old(dirty)
      ensures pos.y > |old(lines)| ==> lines == old(lines)
      ensures pos.y == |old(lines)| ==> lines == old(lines) + [[]]
      ensures pos.y < |old(lines)| ==> lines == SplitAt(old(lines), pos.y, pos.x)
    {
      if pos.y > |rows| {
        return;
      }
      if pos.y == |rows| {
        var row := new Row.Default();
        PushRow(row);
      } else {
        BreakRow(pos.y, pos.x);
      }
    }

    /** Appends row, a row not yet in the document, as the new last row. */
    method PushRow(row: Row)
      requires Valid() && row.Valid() && row !in rows
      modifies this
      ensures Valid() && filename == old(filename) && dirty == old(dirty)
      ensures rows == old(rows) + [row] && lines == old(lines) + [row.graphemes]
      ensures Repr == old(Repr) + {row}
    {
      DistinctSnoc(rows, row);
      rows := rows + [row];
      lines := lines + [row.graphemes];
      Repr := Repr + {row};
    }

    /** Splits row y at cluster x, its tail becoming a new row y + 1. */
    method BreakRow(y: nat, x: nat)
      requires Valid() && y < |rows|
      modifies this, rows[y]
      ensures Valid() && filename == old(filename) && dirty == old(dirty)
      ensures lines == SplitAt(old(lines), y, x)
      ensures fresh(Repr - old(Repr))
    {
      var row := rows[y];
      OthersUntouched(y);
      SplitAtSpliced(lines, y, x);
      var newRow := row.Split(x);
      HoldsUpdate(rows, lines, y);
      ghost var mid := lines[y := row.graphemes];
      DistinctInsert(rows, y + 1, newRow);
      HoldsInsert(rows, mid, y + 1, newRow);
      OwnedInsert(rows, Repr, y + 1, newRow);
      rows := rows[..y + 1] + [newRow] + rows[y + 1..];
      lines := SplitAt(lines, y, x);
      Repr := Repr + {newRow};
    }

    /** Saves to the named file. The environment decides the I/O: failAt is
        the index of the first call that fails, if any, counting the file's
        creation as call 0 and each write after it as the next. Returns the
        outcome and the file's content afterwards, absent when no file was
        created. */
    method Save(failAt: Option<nat>) returns (result: Result<(), IoError>, file: Option<string>)
      requires Valid()
      modifies this`dirty
      ensures filename.None? ==> result.Ok? && file.None? && dirty == old(dirty)
      ensures filename.Some? && failAt == Some(0) ==> result.Err? && file.None? && dirty == old(dirty)
      ensures filename.Some? && (failAt.None? || failAt.value > |Writes(Texts(lines))|) ==>
        result.Ok? && file == Some(Join(Texts(lines))) && !dirty
      ensures filename.Some? && failAt.Some? && 0 < failAt.value <= |Writes(Texts(lines))| ==>
        result.Err? && file == Some(Flat(Writes(Texts(lines))[..failAt.value - 1])) && dirty == old(dirty)
    {
      result, file := Ok(()), None;
      if filename.None? {
        return;
      }
      // File::create
      if failAt == Some(0) {
        return Err(IoError), None;
      }
      ghost var ts := Texts(lines);
      assert forall k :: 0 <= k < |rows| ==> rows[k].Text() == ts[k];
      var ok, content := WriteRows(rows, ts, failAt);
      if !ok {
        return Err(IoError), Some(content);
      }
      dirty := false;
      file := Some(content);
    }
  }

  /** One round of save's loop: row i's text, then a line feed unless row i
      is the last, as I/O calls 2i + 1 and 2i + 2, stopping at the first
      failing write. Returns whether both writes succeeded and what the file
      then holds. */
  method WriteRow(text: string, i: nat, last: bool, ghost ts: seq<string>, failAt: Option<nat>, content: string)
    returns (ok: bool, after: string)
    requires i < |ts| && text == ts[i] && last == (i == |ts| - 1)
    requires failAt.None? || failAt.value > 2 * i
    requires content == Written(ts, 2 * i)
    ensures ok <==> failAt.None? || failAt.value > (if last then 2 * i + 1 else 2 * i + 2)
    ensures ok ==> after == Written(ts, if last then 2 * i + 1 else 2 * i + 2)
    ensures !ok ==> failAt.value - 1 <= |Writes(ts)| && after == Written(ts, failAt.value - 1)
  {
    RowWritten(ts, i, 2 * i);
    // write_all of the row's bytes
    if failAt == Some(2 * i + 1) {
      return false, content;
    }
    after := content + text;
    if !last {
      FeedWritten(ts, i, 2 * i + 1);
      // write_all of the line feed
      if failAt == Some(2 * i + 2) {
        return false, after;
      }
      after := after + "\n";
    }
    ok := true;
  }

  /** The loop of save over the rows, each round a WriteRow. Writes are I/O
      calls 1, 2, ... (call 0 created the file). Returns whether all writes
      succeeded and what the file then holds. */
  method WriteRows(rows: seq<Row>, ghost ts: seq<string>, failAt: Option<nat>) returns (ok: bool, content: string)
    requires |ts| == |rows| && forall k :: 0 <= k < |rows| ==> rows[k].Text() == ts[k]
    requires failAt != Some(0)
    ensures ok <==> failAt.None? || failAt.value > |Writes(ts)|
    ensures ok ==> content == Join(ts)
    ensures !ok ==> content == Flat(Writes(ts)[..failAt.value - 1])
  {
    content := [];
    var i := 0;
    ghost var n := |Writes(ts)|;
    while i < |rows|
      invariant 0 <= i <= |rows|
      invariant i < |rows| ==> content == Written(ts, 2 * i) && (failAt.None? || failAt.value > 2 * i)
      invariant i == |rows| ==> content == Written(ts, n) && (failAt.None? || failAt.value > n)
    {
      var written;
      written, content := WriteRow(rows[i].Text(), i, i == |rows| - 1, ts, failAt, content);
      if !written {
        return false, content;
      }
      i := i + 1;
    }
    AllWritten(ts);
    ok := true;
  }

  /** Two edits in a row on one document: a line break at (x, y) with x within
      row y, then a delete at the same position, gives the rows back and
      leaves the document dirty. */
  method NewLineThenDelete(d: Document, pos: Position)
    requires d.Valid() && pos.y < |d.lines| && pos.x <= |d.lines[pos.y]|
    modifies d, d.Repr
    ensures d.Valid() && d.lines == old(d.lines) && d.dirty
  {
    ghost var before := d.lines;
    d.NewLine(pos);
    SplitThenMerge(before, pos.y, pos.x);
    d.Delete(pos);
  }
}
