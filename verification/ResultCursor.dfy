// The Node driver's result: a cursor that reads one row ahead and owns two row buffers.

module ResultCursor {
  import opened Options
  import opened Sequences

  type Row = seq<string>

  /** The client library's result set. */
  class ResultSet {
    const rows: seq<Row>
    var pos: nat

    constructor (rows: seq<Row>) ensures this.rows == rows && pos == 0 { this.rows := rows; pos := 0; }

    method Next() returns (more: bool)
      requires pos <= |rows|
      modifies this
      ensures more == (old(pos) < |rows|) && pos == if more then old(pos) + 1 else old(pos)
    {
      more := pos < |rows|;
      if more { pos := pos + 1; }
    }

    method GetString(c: nat) returns (s: string)
      requires 0 < pos <= |rows| && c < |rows[pos - 1]|
      ensures s == rows[pos - 1][c]
    {
      s := rows[pos - 1][c];
    }
  }

  datatype Cell = Cell(id: nat, bytes: string)

  /** A row buffer: an array of pointers and one buffer for each column. */
  datatype RowBuf = RowBuf(id: nat, cells: seq<Cell>)

  function Bytes(b: RowBuf): Row { seq(|b.cells|, i requires 0 <= i < |b.cells| => b.cells[i].bytes) }

  /** The addresses freeRow deletes, in its order. */
  function Ids(b: RowBuf): seq<nat> { CellIds(b.cells) + [b.id] }
  function CellIds(cells: seq<Cell>): seq<nat> { seq(|cells|, i requires 0 <= i < |cells| => cells[i].id) }

  /** The addresses of the first n buffers. */
  function AllIds(bufs: seq<RowBuf>, n: nat): seq<nat>
    requires n <= |bufs|
  {
    if n == 0 then [] else AllIds(bufs, n - 1) + Ids(bufs[n - 1])
  }

  function Repeat(s: seq<nat>, n: nat): seq<nat> {
    if n == 0 then [] else Repeat(s, n - 1) + s
  }

  lemma {:induction false} AllIdsPrefix(bufs: seq<RowBuf>, more: seq<RowBuf>, n: nat)
    requires n <= |bufs|
    ensures AllIds(bufs + more, n) == AllIds(bufs, n)
  {
    if n > 0 {
      AllIdsPrefix(bufs, more, n - 1);
      assert (bufs + more)[n - 1] == bufs[n - 1];
    }
  }

  lemma {:induction false} AllIdsGrow(bufs: seq<RowBuf>, m: nat, n: nat)
    requires m <= n <= |bufs|
    ensures AllIds(bufs, m) <= AllIds(bufs, n)
    decreases n
  {
    if m < n { AllIdsGrow(bufs, m, n - 1); }
  }

  /** The lengths of a row's values. */
  function Lengths(row: Row): seq<nat> { seq(|row|, c requires 0 <= c < |row| => |row[c]|) }

  /** Addresses taken for the rows: one for each row and one for each of its values. */
  function Taken(rows: seq<Row>): nat {
    if rows == [] then 0 else Taken(rows[..|rows| - 1]) + 1 + |rows[|rows| - 1]|
  }

  /** The addresses of the buffer are those from `from` up to `to`: the row's own first, then those of
      its columns. */
  ghost predicate Spans(b: RowBuf, from: nat, to: nat) {
    && b.id == from && to == from + 1 + |b.cells|
    && forall i :: 0 <= i < |b.cells| ==> b.cells[i].id == from + 1 + i
  }

  lemma SpanIds(b: RowBuf, from: nat, to: nat)
    requires Spans(b, from, to)
    ensures NoRepeat(Ids(b)) && forall x: nat :: x in Ids(b) <==> from <= x < to
  {
    var ids := Ids(b);
    assert forall i :: 0 <= i < |b.cells| ==> ids[i] == from + 1 + i;
    assert ids[|b.cells|] == from;
    forall x: nat | from <= x < to ensures x in ids {
      if x > from { assert ids[x - from - 1] == x; }
    }
  }

  /** The lengths in the array are those of the row. */
  ghost predicate LengthsOf(lengths: array<nat>, row: Row)
    reads lengths
  {
    lengths.Length == |row| && forall c :: 0 <= c < |row| ==> lengths[c] == |row[c]|
  }

  lemma LengthsAre(lengths: array<nat>, row: Row)
    requires LengthsOf(lengths, row)
    ensures lengths[..] == Lengths(row)
  {}

  /** The column buffers in order, each once, and then the row. */
  ghost predicate DeletedRow(b: RowBuf, ids: seq<nat>) {
    && |ids| == |b.cells| + 1 && ids[|b.cells|] == b.id
    && forall i :: 0 <= i < |b.cells| ==> ids[i] == b.cells[i].id
  }

  lemma DeletesRow(before: seq<nat>, after: seq<nat>, b: RowBuf)
    requires after == before + Ids(b)
    ensures DeletedRow(b, after[|before|..])
  {
    assert after[|before|..] == Ids(b);
  }

  // ---- The cursor's account -----------------------------------------------------------------------------------

  /** The rows of the result set, the buffers allocated for them so far, how many rows were returned,
      how often Next was called with none left, the next free address, and what has been deleted. */
  datatype Account = Account(rows: seq<Row>, bufs: seq<RowBuf>, returned: nat, extra: nat, next: nat, freed: seq<nat>)

  ghost predicate Balanced(a: Account) {
    && a.returned <= |a.rows|
    && |a.bufs| == (if a.returned < |a.rows| then a.returned + 1 else |a.rows|)
    && (forall i :: 0 <= i < |a.bufs| ==> Bytes(a.bufs[i]) == a.rows[i])
    && (a.extra > 0 ==> a.returned == |a.rows|)
    && Owned(a.bufs, a.next)
    && a.freed == FreedSoFar(a.bufs, a.returned, a.extra)
  }

  /** The buffers span the addresses below the next free one, one buffer behind the other. */
  ghost predicate Owned(bufs: seq<RowBuf>, next: nat) {
    if bufs == [] then next == 0
    else
      var from := next - 1 - |bufs[|bufs| - 1].cells|;
      from >= 0 && Spans(bufs[|bufs| - 1], from, next) && Owned(bufs[..|bufs| - 1], from)
  }

  /** The buffers have addresses of their own, and every address given out belongs to one of them. */
  lemma {:induction false} OwnedIds(bufs: seq<RowBuf>, next: nat)
    requires Owned(bufs, next)
    ensures NoRepeat(AllIds(bufs, |bufs|)) && forall x: nat :: x in AllIds(bufs, |bufs|) <==> x < next
  {
    if bufs != [] {
      var front, last := bufs[..|bufs| - 1], bufs[|bufs| - 1];
      var from := next - 1 - |last.cells|;
      OwnedIds(front, from);
      SpanIds(last, from, next);
      assert front + [last] == bufs;
      AllIdsPrefix(front, [last], |front|);
      NoRepeatAppend(AllIds(front, |front|), Ids(last));
    }
  }

  /** One address for each row and one for each of its values. */
  lemma {:induction false} OwnedTaken(bufs: seq<RowBuf>, next: nat, rows: seq<Row>)
    requires Owned(bufs, next) && |bufs| == |rows| && forall i :: 0 <= i < |bufs| ==> |bufs[i].cells| == |rows[i]|
    ensures next == Taken(rows)
  {
    if bufs != [] {
      var n := |bufs| - 1;
      OwnedTaken(bufs[..n], next - 1 - |bufs[n].cells|, rows[..n]);
    }
  }

  lemma AllTaken(a: Account)
    requires Balanced(a) && a.returned == |a.rows|
    ensures a.next == Taken(a.rows)
  {
    assert forall i :: 0 <= i < |a.bufs| ==> |Bytes(a.bufs[i])| == |a.bufs[i].cells|;
    OwnedTaken(a.bufs, a.next, a.rows);
  }

  /** Every buffer before the last row returned, and that one once for each call behind the end. */
  ghost function FreedSoFar(bufs: seq<RowBuf>, returned: nat, extra: nat): seq<nat>
    requires returned <= |bufs|
  {
    if returned == 0 then []
    else if extra == 0 then AllIds(bufs, returned - 1)
    else AllIds(bufs, returned - 1) + Repeat(Ids(bufs[returned - 1]), extra)
  }

  function IdsOf(row: Option<RowBuf>): seq<nat> { if row.Some? then Ids(row.value) else [] }
  function Listed(row: Option<RowBuf>): seq<RowBuf> { if row.Some? then [row.value] else [] }

  ghost function Previous(a: Account): Option<RowBuf>
    requires Balanced(a)
  {
    if a.returned > 0 then Some(a.bufs[a.returned - 1]) else None
  }

  ghost function Ahead(a: Account): Option<RowBuf>
    requires Balanced(a)
  {
    if a.returned < |a.rows| then Some(a.bufs[a.returned]) else None
  }

  ghost function Advanced(a: Account, row: Option<RowBuf>, next: nat): Account
    requires Balanced(a)
  {
    a.(bufs := a.bufs + Listed(row), returned := a.returned + 1, next := next, freed := a.freed + IdsOf(Previous(a)))
  }

  /** The first row has been read ahead, or there is none. */
  lemma FirstBalance(rows: seq<Row>, row: Option<RowBuf>, next: nat)
    requires row.Some? <==> rows != []
    requires row.Some? ==> Bytes(row.value) == rows[0] && Spans(row.value, 0, next)
    requires row.None? ==> next == 0
    ensures var a := Account(rows, Listed(row), 0, 0, next, []);
            Balanced(a) && Ahead(a) == row && Previous(a) == None
  {
    OwnedGrows([], row, 0, next);
    assert [] + Listed(row) == Listed(row);
  }

  lemma BuffersHaveWidth(a: Account, columns: nat)
    requires Balanced(a) && forall i :: 0 <= i < |a.rows| ==> |a.rows[i]| == columns
    ensures Previous(a).Some? ==> |Previous(a).value.cells| == columns
    ensures Ahead(a).Some? ==> |Ahead(a).value.cells| == columns
  {
    assert forall i :: 0 <= i < |a.bufs| ==> |Bytes(a.bufs[i])| == |a.bufs[i].cells|;
  }

  /** One call of Next with a row left: the previous row is freed and the row behind is read ahead. */
  lemma AdvanceKeepsBalance(a: Account, row: Option<RowBuf>, next: nat)
    requires Balanced(a) && a.returned < |a.rows|
    requires row.Some? <==> a.returned + 1 < |a.rows|
    requires row.Some? ==> Bytes(row.value) == a.rows[a.returned + 1] && Spans(row.value, a.next, next)
    requires row.None? ==> next == a.next
    ensures var b := Advanced(a, row, next); Balanced(b) && Ahead(b) == row && Previous(b) == Ahead(a)
  {
    var bufs := a.bufs + Listed(row);
    OwnedGrows(a.bufs, row, a.next, next);
    AllIdsPrefix(a.bufs, Listed(row), a.returned);
    FreedGrows(a);
    assert forall i :: 0 <= i < |a.bufs| ==> bufs[i] == a.bufs[i];
  }

  lemma OwnedGrows(bufs: seq<RowBuf>, row: Option<RowBuf>, next: nat, next': nat)
    requires Owned(bufs, next)
    requires if row.Some? then Spans(row.value, next, next') else next' == next
    ensures Owned(bufs + Listed(row), next')
  {
    if row.Some? {
      assert (bufs + [row.value])[..|bufs|] == bufs;
    } else {
      assert bufs + [] == bufs;
    }
  }

  lemma FreedGrows(a: Account)
    requires Balanced(a) && a.returned < |a.rows|
    ensures a.freed + IdsOf(Previous(a)) == AllIds(a.bufs, a.returned)
  {
    assert a.extra == 0;
  }

  /** One call of Next with no row left. */
  lemma ExtraKeepsBalance(a: Account)
    requires Balanced(a) && a.returned == |a.rows|
    ensures var b := a.(extra := a.extra + 1, freed := a.freed + IdsOf(Previous(a)));
            Balanced(b) && Ahead(b) == Ahead(a) && Previous(b) == Previous(a)
  {
    var b := a.(extra := a.extra + 1, freed := a.freed + IdsOf(Previous(a)));
    if a.returned > 0 { FreedOnceMore(a.bufs, a.returned, a.extra); }
    assert b.freed == FreedSoFar(b.bufs, b.returned, b.extra);
  }

  lemma FreedOnceMore(bufs: seq<RowBuf>, returned: nat, extra: nat)
    requires 0 < returned <= |bufs|
    ensures FreedSoFar(bufs, returned, extra) + Ids(bufs[returned - 1]) == FreedSoFar(bufs, returned, extra + 1)
  {
    var all, last := AllIds(bufs, returned - 1), Ids(bufs[returned - 1]);
    if extra == 0 {
      assert Repeat(last, 1) == Repeat(last, 0) + last == last;
    } else {
      Assoc(all, Repeat(last, extra), last);
    }
  }

  /** Nothing of the buffer has been deleted. */
  ghost predicate Alive(b: RowBuf, freed: seq<nat>) { forall x :: x in Ids(b) ==> x !in freed }

  /** The n-th buffer is not among those in front of it. */
  lemma AliveBehind(bufs: seq<RowBuf>, next: nat, n: nat)
    requires Owned(bufs, next) && n < |bufs|
    ensures Alive(bufs[n], AllIds(bufs, n))
  {
    OwnedIds(bufs, next);
    AllIdsGrow(bufs, n + 1, |bufs|);
    NoRepeatFront(AllIds(bufs, n), Ids(bufs[n]), AllIds(bufs, |bufs|));
  }

  /** The row ahead is never deleted early, and the row last returned has not been deleted exactly
      as long as nobody asked behind the end. */
  lemma RowsInUseAreAlive(a: Account)
    requires Balanced(a)
    ensures Ahead(a).Some? ==> Alive(Ahead(a).value, a.freed)
    ensures Previous(a).Some? ==> (Alive(Previous(a).value, a.freed) <==> a.extra == 0)
  {
    if a.extra > 0 && a.returned > 0 {
      DeletedAgain(a.bufs[a.returned - 1], AllIds(a.bufs, a.returned - 1), a.extra);
    } else if a.returned > 0 {
      AliveBehind(a.bufs, a.next, a.returned - 1);
    }
    if a.returned < |a.rows| {
      AliveBehind(a.bufs, a.next, a.returned);
      if a.returned > 0 { AllIdsGrow(a.bufs, a.returned - 1, a.returned); }
    }
  }

  lemma DeletedAgain(b: RowBuf, front: seq<nat>, extra: nat)
    requires extra > 0
    ensures !Alive(b, front + Repeat(Ids(b), extra))
  {
    var freed := front + (Repeat(Ids(b), extra - 1) + Ids(b));
    assert Ids(b)[|b.cells|] == b.id;
    assert freed[|freed| - 1] == b.id;
    assert b.id in Ids(b) && b.id in front + Repeat(Ids(b), extra);
  }

  class Result {
    const resultSet: ResultSet?
    const totalColumns: nat
    var rowNumber: nat
    const previousColumnLengths: array<nat>
    const nextColumnLengths: array<nat>
    var previousRow: Option<RowBuf>
    var nextRow: Option<RowBuf>
    var address: nat             // the next address new[] returns
    ghost var freed: seq<nat>    // the addresses passed to delete[]
    ghost var books: Account

    ghost function Rows(): seq<Row> { if resultSet == null then [] else resultSet.rows }

    ghost predicate Valid()
      reads this, resultSet, previousColumnLengths, nextColumnLengths
    {
      && Balanced(books)
      && Layout()
      && books == Account(Rows(), books.bufs, rowNumber, books.extra, address, freed)
      && (resultSet != null ==> resultSet.pos == |books.bufs|)
      && nextRow == Ahead(books) && previousRow == Previous(books)
      && (rowNumber > 0 ==> LengthsOf(previousColumnLengths, Rows()[rowNumber - 1]))
      && (rowNumber < |Rows()| ==> LengthsOf(nextColumnLengths, Rows()[rowNumber]))
    }

    /** Every row has a value for each column; this never changes. */
    ghost predicate Layout() {
      && previousColumnLengths != nextColumnLengths
      && previousColumnLengths.Length == nextColumnLengths.Length == totalColumns
      && forall i :: 0 <= i < |Rows()| ==> |Rows()[i]| == totalColumns
    }

    /** A result without rows, of a statement that was an update. */
    constructor Update()
      ensures Valid() && Rows() == [] && books.extra == 0 && rowNumber == 0 && resultSet == null
      ensures fresh(previousColumnLengths) && fresh(nextColumnLengths)
    {
      resultSet, totalColumns := null, 0;
      rowNumber, previousRow, nextRow, address, freed := 0, None, None, 0, [];
      previousColumnLengths := new nat[0];
      nextColumnLengths := new nat[0];
      books := Account([], [], 0, 0, address, []);
    }

    constructor Query(results: ResultSet, columns: nat)
      requires results.pos == 0
      requires forall i :: 0 <= i < |results.rows| ==> |results.rows[i]| == columns
      modifies results
      ensures Valid() && Rows() == results.rows && books.extra == 0 && rowNumber == 0 && resultSet == results
      ensures fresh(previousColumnLengths) && fresh(nextColumnLengths)
    {
      resultSet, totalColumns := results, columns;
      rowNumber, previousRow, nextRow, address, freed := 0, None, None, 0, [];
      previousColumnLengths := new nat[columns];
      nextColumnLengths := new nat[columns];
      new;
      var next := ReadRow(nextColumnLengths);
      nextRow := next;
      FirstBalance(Rows(), next, address);
      books := Account(Rows(), Listed(next), 0, 0, address, []);
    }

    method New() returns (id: nat)
      modifies this`address
      ensures id == old(address) && address == id + 1
    {
      id := address;
      address := address + 1;
    }

    method Delete(id: nat)
      modifies this`freed
      ensures freed == old(freed) + [id]
    {
      freed := freed + [id];
    }

    /** `row`: reads the next row into a new buffer. */
    method ReadRow(lengths: array<nat>) returns (row: Option<RowBuf>)
      requires resultSet != null && resultSet.pos <= |resultSet.rows| && lengths.Length == totalColumns
      requires forall i :: 0 <= i < |resultSet.rows| ==> |resultSet.rows[i]| == totalColumns
      modifies this`address, resultSet, lengths
      ensures row.Some? == (old(resultSet.pos) < |resultSet.rows|)
      ensures resultSet.pos == if row.Some? then old(resultSet.pos) + 1 else old(resultSet.pos)
      ensures row.Some? ==> Bytes(row.value) == resultSet.rows[old(resultSet.pos)]
                            && LengthsOf(lengths, resultSet.rows[old(resultSet.pos)])
      ensures if row.Some? then Spans(row.value, old(address), address) else address == old(address)
    {
      var more := resultSet.Next();
      if !more { return None; }
      var id := New();
      var cells: seq<Cell> := [];
      ghost var from := resultSet.rows[resultSet.pos - 1];
      for c := 0 to totalColumns
        invariant |cells| == c && resultSet.pos == old(resultSet.pos) + 1
        invariant address == id + 1 + c && id == old(address)
        invariant forall i :: 0 <= i < c ==> cells[i] == Cell(id + 1 + i, from[i]) && lengths[i] == |from[i]|
      {
        var text := resultSet.GetString(c);
        lengths[c] := |text|;
        var cell := New();
        cells := cells + [Cell(cell, text)];
      }
      row := Some(RowBuf(id, cells));
    }

    method FreeRow(row: Option<RowBuf>)
      requires row.Some? ==> |row.value.cells| == totalColumns
      modifies this`freed
      ensures freed == old(freed) + IdsOf(row)
      ensures row.Some? ==> DeletedRow(row.value, freed[|old(freed)|..])
    {
      if row.Some? {
        var cells := row.value.cells;
        for i := 0 to totalColumns
          invariant freed == old(freed) + CellIds(cells[..i])
        {
          Delete(cells[i].id);
          assert CellIds(cells[..i + 1]) == CellIds(cells[..i]) + [cells[i].id];
        }
        assert cells[..totalColumns] == cells;
        Delete(row.value.id);
        DeletesRow(old(freed), freed, row.value);
      }
    }

    method CopyLengths(ghost row: Row)
      requires previousColumnLengths != nextColumnLengths && previousColumnLengths.Length == totalColumns
      requires LengthsOf(nextColumnLengths, row) && |row| == totalColumns
      modifies previousColumnLengths
      ensures LengthsOf(previousColumnLengths, row)
    {
      for i := 0 to totalColumns
        invariant forall c :: 0 <= c < i ==> previousColumnLengths[c] == nextColumnLengths[c]
        invariant LengthsOf(nextColumnLengths, row)
      {
        previousColumnLengths[i] := nextColumnLengths[i];
      }
    }

    method HasNext() returns (r: bool)
      requires Valid()
      ensures Valid() && r == (rowNumber < |Rows()|)
    {
      r := nextRow.Some?;
    }

    /** Behind the end the previous row is freed and kept. */
    method Next() returns (row: Option<RowBuf>)
      requires Valid()
      modifies this, resultSet, previousColumnLengths, nextColumnLengths
      ensures Valid()
      ensures old(rowNumber) < |Rows()| ==>
                row.Some? && Bytes(row.value) == Rows()[old(rowNumber)] &&
                rowNumber == old(rowNumber) + 1 && books.extra == old(books.extra)
      ensures old(rowNumber) == |Rows()| ==>
                row.None? && rowNumber == old(rowNumber) && books.extra == old(books.extra) + 1
      ensures row.Some? ==> row == previousRow && Alive(row.value, freed)
    {
      if nextRow.None? {
        NextBehindEnd();
        row := None;
      } else {
        row := nextRow;
        Advance();
        RowsInUseAreAlive(books);
      }
    }

    method NextBehindEnd()
      requires Valid() && rowNumber == |Rows()|
      modifies this
      ensures Valid() && rowNumber == old(rowNumber) && books.extra == old(books.extra) + 1
    {
      ExtraKeepsBalance(books);
      BuffersHaveWidth(books, totalColumns);
      FreeRow(previousRow);
      books := books.(extra := books.extra + 1, freed := freed);
    }

    /** The row ahead becomes the previous one, and the row behind it is read. */
    method Advance()
      requires Valid() && rowNumber < |Rows()|
      modifies this, resultSet, previousColumnLengths, nextColumnLengths
      ensures Valid() && rowNumber == old(rowNumber) + 1 && books.extra == old(books.extra)
      ensures previousRow == old(nextRow)
    {
      ghost var a := books;
      BuffersHaveWidth(a, totalColumns);
      FreeRow(previousRow);
      var next := ReadAhead();
      AdvanceKeepsBalance(a, next, address);
      books := Advanced(a, next, address);
      rowNumber := rowNumber + 1;
      previousRow := nextRow;
      nextRow := next;
    }

    /** The lengths of the row ahead are kept, and the lengths array is filled for the one behind it. */
    method ReadAhead() returns (next: Option<RowBuf>)
      requires Layout() && resultSet != null && rowNumber < |Rows()|
      requires resultSet.pos == rowNumber + 1 && LengthsOf(nextColumnLengths, Rows()[rowNumber])
      modifies this`address, resultSet, previousColumnLengths, nextColumnLengths
      ensures LengthsOf(previousColumnLengths, Rows()[rowNumber])
      ensures next.Some? <==> rowNumber + 1 < |Rows()|
      ensures resultSet.pos == if next.Some? then rowNumber + 2 else rowNumber + 1
      ensures next.Some? ==> Bytes(next.value) == Rows()[rowNumber + 1] && LengthsOf(nextColumnLengths, Rows()[rowNumber + 1])
      ensures if next.Some? then Spans(next.value, old(address), address) else address == old(address)
    {
      CopyLengths(Rows()[rowNumber]);
      next := ReadRow(nextColumnLengths);
    }

    method ColumnLengths() returns (lengths: array<nat>)
      requires Valid()
      ensures lengths == previousColumnLengths
      ensures rowNumber > 0 ==> LengthsOf(lengths, Rows()[rowNumber - 1])
    {
      lengths := previousColumnLengths;
    }

    /** The number of the row last returned; before the first row there is none. */
    method Index() returns (r: Option<nat>)
      requires Valid()
      ensures r.None? <==> previousRow.None?
      ensures r.Some? ==> r.value < |Rows()| && previousRow.Some? && Bytes(previousRow.value) == Rows()[r.value]
      ensures r.Some? ==> rowNumber == r.value + 1
    {
      r := if rowNumber == 0 then None else Some(rowNumber - 1);
    }

    /** The destructor. */
    method Free()
      requires Valid()
      modifies this`freed
      ensures freed == FreedAtEnd(books.bufs, rowNumber, books.extra)
      ensures EachOnce(freed, address) <==> rowNumber == 0 || books.extra == 0
    {
      EndIs(books);
      BuffersHaveWidth(books, totalColumns);
      FreeRow(previousRow);
      FreeRow(nextRow);
      EveryAddressExactly(books);
    }
  }

  // ---- What has been deleted when the result is gone --------------------------------------------------------

  /** After k rows were returned, of which the last stays until the end, and `extra` calls behind the
      end: the buffers in front of it, the last one, and the one read ahead. */
  ghost function FreedAtEnd(bufs: seq<RowBuf>, k: nat, extra: nat): seq<nat>
    requires k == |bufs| || k + 1 == |bufs|
  {
    FreedSoFar(bufs, k, extra) + (if k == 0 then [] else Ids(bufs[k - 1])) + (if k < |bufs| then Ids(bufs[k]) else [])
  }

  lemma EndIs(a: Account)
    requires Balanced(a)
    ensures FreedAtEnd(a.bufs, a.returned, a.extra) == a.freed + IdsOf(Previous(a)) + IdsOf(Ahead(a))
  {}

  /** Each allocated address once, and those of the last row once more for every call behind the end. */
  lemma FreedSplit(bufs: seq<RowBuf>, k: nat, extra: nat)
    requires (k == |bufs| || k + 1 == |bufs|) && (extra > 0 ==> k == |bufs|)
    ensures multiset(FreedAtEnd(bufs, k, extra)) ==
              multiset(AllIds(bufs, |bufs|)) + (if k == 0 then multiset{} else multiset(Repeat(Ids(bufs[k - 1]), extra)))
  {
    if k > 0 { AllIdsSplit(bufs, k); }
    if k < |bufs| { AllIdsSplit(bufs, k + 1); }
  }

  lemma AllIdsSplit(bufs: seq<RowBuf>, k: nat)
    requires 0 < k <= |bufs|
    ensures multiset(AllIds(bufs, k)) == multiset(AllIds(bufs, k - 1)) + multiset(Ids(bufs[k - 1]))
  {}

  /** Every buffer allocated is freed once, and nothing else is, exactly when no row was ever returned
      or Next was never called behind the end. */
  lemma FreedExactlyOnce(bufs: seq<RowBuf>, k: nat, extra: nat)
    requires (k == |bufs| || k + 1 == |bufs|) && (extra > 0 ==> k == |bufs|)
    ensures multiset(FreedAtEnd(bufs, k, extra)) == multiset(AllIds(bufs, |bufs|)) <==> k == 0 || extra == 0
  {
    FreedSplit(bufs, k, extra);
    if k > 0 && extra > 0 {
      var again := Repeat(Ids(bufs[k - 1]), extra);
      assert |again| == |Repeat(Ids(bufs[k - 1]), extra - 1)| + |bufs[k - 1].cells| + 1;
      assert |multiset(again)| > 0;
      assert |multiset(FreedAtEnd(bufs, k, extra))| == |multiset(AllIds(bufs, |bufs|))| + |multiset(again)|;
    }
  }

  /** One row and one call behind the end: destruction deletes the row a second time. */
  lemma AskingBehindTheEndFreesTwice(b: RowBuf)
    ensures multiset(FreedAtEnd([b], 1, 1)) != multiset(AllIds([b], 1))
  {
    FreedExactlyOnce([b], 1, 1);
  }

  /** Every address given out, and no other, was deleted once. */
  ghost predicate EachOnce(freed: seq<nat>, next: nat) {
    forall x: nat :: multiset(freed)[x] == if x < next then 1 else 0
  }

  lemma EachOnceIsTheBuffers(freed: seq<nat>, all: seq<nat>, next: nat)
    requires NoRepeat(all) && forall x: nat :: x in all <==> x < next
    ensures EachOnce(freed, next) <==> multiset(freed) == multiset(all)
  {
    forall x: nat ensures multiset(all)[x] == if x < next then 1 else 0 {
      NoRepeatCounts(all, x);
    }
    if EachOnce(freed, next) {
      assert forall x: nat :: multiset(freed)[x] == multiset(all)[x];
    }
  }

  /** At the end each address was deleted once exactly when no row was returned or nobody asked behind
      the end. */
  lemma EveryAddressExactly(a: Account)
    requires Balanced(a)
    ensures EachOnce(FreedAtEnd(a.bufs, a.returned, a.extra), a.next) <==> a.returned == 0 || a.extra == 0
  {
    OwnedIds(a.bufs, a.next);
    FreedExactlyOnce(a.bufs, a.returned, a.extra);
    EachOnceIsTheBuffers(FreedAtEnd(a.bufs, a.returned, a.extra), AllIds(a.bufs, |a.bufs|), a.next);
  }

  // ---- A client that asks before it reads --------------------------------------------------------------------

  /** Each row with its lengths and its number. */
  ghost predicate Described(rows: seq<Row>, lengths: seq<seq<nat>>, numbers: seq<nat>) {
    && |lengths| == |numbers| == |rows|
    && (forall i :: 0 <= i < |rows| ==> numbers[i] == i && |lengths[i]| == |rows[i]|)
    && (forall i, c :: 0 <= i < |rows| && 0 <= c < |rows[i]| ==> lengths[i][c] == |rows[i][c]|)
  }

  lemma DescribedSnoc(rows: seq<Row>, k: nat, lengths: seq<seq<nat>>, numbers: seq<nat>)
    requires k < |rows| && Described(rows[..k], lengths, numbers)
    ensures rows[..k] + [rows[k]] == rows[..k + 1]
    ensures Described(rows[..k + 1], lengths + [Lengths(rows[k])], numbers + [k])
  {
    assert forall i :: 0 <= i < k ==> rows[..k + 1][i] == rows[..k][i];
  }

  /** What a client asks about the row last returned. */
  method Describe(r: Result) returns (lengths: seq<nat>, number: nat)
    requires r.Valid() && r.rowNumber > 0
    ensures r.Valid()
    ensures lengths == Lengths(r.Rows()[r.rowNumber - 1]) && number == r.rowNumber - 1
  {
    var stored := r.ColumnLengths();
    LengthsAre(stored, r.Rows()[r.rowNumber - 1]);
    lengths := stored[..];
    var index := r.Index();
    number := index.value;
  }

  /** One row with its lengths and its number. */
  method ReadOne(r: Result, ghost rows: seq<Row>, ghost k: nat) returns (row: Row, lengths: seq<nat>, number: nat)
    requires r.Valid() && rows == r.Rows() && k == r.rowNumber < |rows|
    modifies r, r.resultSet, r.previousColumnLengths, r.nextColumnLengths
    ensures r.Valid() && r.rowNumber == k + 1 && r.books.extra == old(r.books.extra)
    ensures row == rows[k] && lengths == Lengths(rows[k]) && number == k
  {
    var buffer := r.Next();
    row := Bytes(buffer.value);
    lengths, number := Describe(r);
  }

  method ReadRows(r: Result) returns (out: seq<Row>, lengths: seq<seq<nat>>, numbers: seq<nat>)
    requires r.Valid() && r.rowNumber == 0 && r.books.extra == 0
    modifies r, r.resultSet, r.previousColumnLengths, r.nextColumnLengths
    ensures r.Valid() && r.rowNumber == |r.Rows()| && r.books.extra == 0
    ensures out == r.Rows() && Described(out, lengths, numbers)
  {
    out, lengths, numbers := [], [], [];
    ghost var rows := r.Rows();
    var more := r.HasNext();
    while more
      invariant r.Valid() && r.books.extra == 0 && r.Rows() == rows
      invariant r.rowNumber <= |rows| && out == rows[..r.rowNumber] && Described(out, lengths, numbers)
      invariant more == (r.rowNumber < |rows|)
      decreases |rows| - r.rowNumber
    {
      DescribedSnoc(rows, r.rowNumber, lengths, numbers);
      var row, ls, n := ReadOne(r, rows, r.rowNumber);
      out, lengths, numbers := out + [row], lengths + [ls], numbers + [n];
      more := r.HasNext();
    }
  }

  /** Reading while there is a next row gives the rows of the result set in order, and destruction
      then has freed every row buffer exactly once. */
  method ReadAll(r: Result) returns (out: seq<Row>, lengths: seq<seq<nat>>, numbers: seq<nat>)
    requires r.Valid() && r.rowNumber == 0 && r.books.extra == 0
    modifies r, r.resultSet, r.previousColumnLengths, r.nextColumnLengths
    ensures out == r.Rows() && Described(out, lengths, numbers)
    ensures r.address == Taken(out) && EachOnce(r.freed, r.address)
  {
    out, lengths, numbers := ReadRows(r);
    AllTaken(r.books);
    r.Free();
  }
}
