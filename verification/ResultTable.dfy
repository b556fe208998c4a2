// The query results of src/core/mydb.cpp: a growing flat table of allocated strings, one
// header row and then the data rows, its readers and its release.
module ResultTable {

  type Row = seq<string>

  // What the allocator answers while one row is saved: whether the table can grow, and
  // how many strings can be copied before the first refusal.
  datatype Memory = Memory(grows: bool, copies: nat)

  // A result as a value: all strings stored so far, one after the other.
  datatype Table = Table(cols: nat, cells: seq<string>, size: nat, rows: nat) {
    ghost predicate Sound() {
      rows * cols <= |cells| <= size
    }

    // Row `k`; the header is row 0.
    ghost function At(k: nat): (row: Row)
      requires Sound() && k < rows
      ensures |row| == cols
    {
      RowFits(k, rows, cols);
      cells[k * cols..k * cols + cols]
    }

    // What fetching delivers from the beginning until it answers NULL.
    ghost function Fetched(): seq<Row>
      requires Sound()
    {
      seq(if rows > 1 then rows - 1 else 0, k requires 0 <= k && k + 1 < rows => At(k + 1))
    }
  }

  lemma RowFits(k: nat, rows: nat, cols: nat)
    requires k < rows
    ensures 0 <= k * cols && k * cols + cols == (k + 1) * cols <= rows * cols
  {
    assert rows * cols == (k + 1) * cols + (rows - k - 1) * cols;
  }

  predicate Grows(t: Table) {
    (t.size - |t.cells|) / 8 < t.size + t.cols
  }

  predicate Enough(cols: nat, mem: Memory) {
    cols == 0 || (mem.grows && mem.copies >= cols)
  }

  // `db_save_row`: all of the row and one row more, or what could be copied and no row more.
  function Save(t: Table, row: Row, mem: Memory): Table
    requires |row| == t.cols
  {
    if Grows(t) && !mem.grows then t
    else
      var n := if mem.copies < t.cols then mem.copies else t.cols;
      Table(
        t.cols,
        t.cells + row[..n],
        if Grows(t) then t.size + t.cols else t.size,
        if n == t.cols then t.rows + 1 else t.rows)
  }

  // The table is grown for every row, whatever room it has: the test compares a number
  // of cells, divided by the size of a pointer, with the whole new size.
  lemma EveryRowGrows(t: Table)
    requires t.Sound() && (t.cols == 0 ==> t.size == 0)
    ensures Grows(t) <==> t.cols > 0
  {
  }

  // Saving keeps the table sound, and counts a row exactly when the memory suffices.
  lemma SaveCounts(t: Table, row: Row, mem: Memory)
    requires t.Sound() && (t.cols == 0 ==> t.size == 0) && |row| == t.cols
    ensures var r := Save(t, row, mem);
      && r.Sound() && (r.cols == 0 ==> r.size == 0)
      && t.cells <= r.cells && r.size - |r.cells| >= t.size - |t.cells|
      && r.rows == if Enough(t.cols, mem) then t.rows + 1 else t.rows
  {
    EveryRowGrows(t);
    assert (t.rows + 1) * t.cols == t.rows * t.cols + t.cols;
  }

  // It keeps all rows that were there.
  lemma SaveKeeps(t: Table, row: Row, mem: Memory)
    requires t.Sound() && (t.cols == 0 ==> t.size == 0) && |row| == t.cols
    ensures var r := Save(t, row, mem);
      r.Sound() && t.rows <= r.rows && forall k :: 0 <= k < t.rows ==> r.At(k) == t.At(k)
  {
    var r := Save(t, row, mem);
    SaveCounts(t, row, mem);
    forall k | 0 <= k < t.rows
      ensures r.At(k) == t.At(k)
    {
      RowFits(k, t.rows, t.cols);
      RowFits(k, r.rows, r.cols);
    }
  }

  // Every row so far was saved whole: no gaps, and no room left.
  ghost predicate Packed(t: Table) {
    t.rows * t.cols == |t.cells| == t.size
  }

  lemma PackedSave(t: Table, row: Row, mem: Memory)
    requires Packed(t) && |row| == t.cols && Enough(t.cols, mem)
    ensures var r := Save(t, row, mem);
      Packed(r) && r.rows == t.rows + 1 && r.At(t.rows) == row
  {
    if t.cols == 0 {
      assert t.rows * t.cols == 0 && (t.rows + 1) * t.cols == 0;
    }
    EveryRowGrows(t);
    assert (t.rows + 1) * t.cols == t.rows * t.cols + t.cols;
    assert row[..t.cols] == row;
    RowFits(t.rows, t.rows + 1, t.cols);
  }

  // ------------------------------------------------------------------
  // One query: the header, whose outcome is not looked at, and rows until one fails.

  // Rows of one width, and an answer of the allocator for each.
  predicate Rectangular(cols: nat, data: seq<Row>, mems: seq<Memory>) {
    |data| == |mems| && forall i :: 0 <= i < |data| ==> |data[i]| == cols
  }

  function SaveRows(t: Table, data: seq<Row>, mems: seq<Memory>): (r: Table)
    requires Rectangular(t.cols, data, mems)
    decreases |data|
  {
    if data == [] then t
    else
      var r := Save(t, data[0], mems[0]);
      if !Enough(t.cols, mems[0]) then r else SaveRows(r, data[1..], mems[1..])
  }

  function Query(header: Row, data: seq<Row>, first: Memory, mems: seq<Memory>): Table
    requires Rectangular(|header|, data, mems)
  {
    SaveRows(Save(Table(|header|, [], 0, 0), header, first), data, mems)
  }

  // How many rows find enough memory.
  function Afforded(cols: nat, data: seq<Row>, mems: seq<Memory>): (n: nat)
    requires |data| == |mems|
    ensures n <= |data|
  {
    if data == [] || !Enough(cols, mems[0]) then 0
    else 1 + Afforded(cols, data[1..], mems[1..])
  }

  lemma {:induction false} SaveRowsKeeps(t: Table, data: seq<Row>, mems: seq<Memory>)
    requires t.Sound() && (t.cols == 0 ==> t.size == 0) && Rectangular(t.cols, data, mems)
    ensures var r := SaveRows(t, data, mems);
      && r.Sound() && r.cols == t.cols && r.rows == t.rows + Afforded(t.cols, data, mems)
      && forall k :: 0 <= k < t.rows ==> r.At(k) == t.At(k)
    decreases |data|
  {
    if data != [] {
      SaveCounts(t, data[0], mems[0]);
      SaveKeeps(t, data[0], mems[0]);
      if Enough(t.cols, mems[0]) {
        SaveRowsKeeps(Save(t, data[0], mems[0]), data[1..], mems[1..]);
      }
    }
  }

  // From a packed table on, the rows that fit come back as they are.
  lemma {:induction false} PackedRows(t: Table, data: seq<Row>, mems: seq<Memory>, i: nat)
    requires Packed(t) && Rectangular(t.cols, data, mems) && i < Afforded(t.cols, data, mems)
    ensures var r := SaveRows(t, data, mems);
      r.Sound() && t.rows + i < r.rows && r.At(t.rows + i) == data[i]
    decreases |data|
  {
    var r := Save(t, data[0], mems[0]);
    PackedSave(t, data[0], mems[0]);
    PackedIsSound(t);
    PackedIsSound(r);
    SaveRowsKeeps(r, data[1..], mems[1..]);
    if i > 0 {
      PackedRows(r, data[1..], mems[1..], i - 1);
    }
  }

  lemma PackedIsSound(t: Table)
    requires Packed(t)
    ensures t.Sound() && (t.cols == 0 ==> t.size == 0)
  {
    if t.cols == 0 {
      assert t.rows * t.cols == 0;
    }
  }

  lemma StartIsPacked(cols: nat)
    ensures Packed(Table(cols, [], 0, 0))
  {
    assert 0 * cols == 0;
  }

  // Fetching delivers exactly the rows that found memory, in order, if and only if the
  // header was saved too or there is no such row.
  lemma FetchedAreTheRows(header: Row, data: seq<Row>, first: Memory, mems: seq<Memory>)
    requires Rectangular(|header|, data, mems)
    ensures var t := Query(header, data, first, mems);
      var n := Afforded(|header|, data, mems);
      t.Sound() && (t.Fetched() == data[..n] <==> Enough(|header|, first) || n == 0)
  {
    var start := Table(|header|, [], 0, 0);
    StartIsPacked(|header|);
    PackedIsSound(start);
    SaveCounts(start, header, first);
    SaveKeeps(start, header, first);
    var named := Save(start, header, first);
    SaveRowsKeeps(named, data, mems);
    var t := Query(header, data, first, mems);
    var n := Afforded(|header|, data, mems);
    if Enough(|header|, first) {
      PackedSave(start, header, first);
      forall k | 0 <= k < n
        ensures t.At(k + 1) == data[..n][k]
      {
        PackedRows(named, data, mems, k);
      }
    }
    DeliversAll(t, data[..n]);
  }

  lemma DeliversAll(t: Table, rows: seq<Row>)
    requires t.Sound()
    requires t.rows == |rows| || (t.rows == |rows| + 1 && forall k :: 0 <= k < |rows| ==> t.At(k + 1) == rows[k])
    ensures t.Fetched() == rows <==> t.rows == |rows| + 1 || rows == []
  {
  }

  // The cells of rows one after the other.
  function Flat(rows: seq<Row>): seq<string> {
    if rows == [] then [] else rows[0] + Flat(rows[1..])
  }

  lemma {:induction false} FlatRow(rows: seq<Row>, cols: nat, k: nat)
    requires k < |rows| && forall i :: 0 <= i < |rows| ==> |rows[i]| == cols
    ensures 0 <= k * cols && k * cols + cols <= |Flat(rows)|
    ensures Flat(rows)[k * cols..k * cols + cols] == rows[k]
    decreases k
  {
    if k > 0 {
      var f := Flat(rows[1..]);
      FlatRow(rows[1..], cols, k - 1);
      assert k * cols == cols + (k - 1) * cols;
      assert Flat(rows)[k * cols..k * cols + cols] == f[(k - 1) * cols..(k - 1) * cols + cols];
    }
  }

  // A row of the table that begins with m foreign cells is made of two rows.
  lemma Straddles(before: seq<string>, rows: seq<Row>, cols: nat, k: nat)
    requires |before| <= cols && k + 1 < |rows| && forall i :: 0 <= i < |rows| ==> |rows[i]| == cols
    ensures 0 <= (k + 1) * cols && (k + 1) * cols + cols <= |before + Flat(rows)|
    ensures (before + Flat(rows))[(k + 1) * cols..(k + 1) * cols + cols] ==
            rows[k][cols - |before|..] + rows[k + 1][..cols - |before|]
  {
    var f, m := Flat(rows), |before|;
    FlatRow(rows, cols, k);
    FlatRow(rows, cols, k + 1);
    var a, b := k * cols, (k + 1) * cols;
    assert b == a + cols;
    assert (before + f)[b..b + cols] == f[b - m..b + cols - m];
    assert f[b - m..b + cols - m] == f[b - m..b] + f[b..b + cols - m];
    assert f[b - m..b] == f[a..a + cols][cols - m..];
    assert f[b..b + cols - m] == f[b..b + cols][..cols - m];
  }

  lemma {:induction false} SaveRowsCells(t: Table, data: seq<Row>, mems: seq<Memory>)
    requires t.Sound() && (t.cols == 0 ==> t.size == 0) && Rectangular(t.cols, data, mems)
    ensures t.cells + Flat(data[..Afforded(t.cols, data, mems)]) <= SaveRows(t, data, mems).cells
    decreases |data|
  {
    if data != [] {
      EveryRowGrows(t);
      SaveCounts(t, data[0], mems[0]);
      SaveKeeps(t, data[0], mems[0]);
      var n := Afforded(t.cols, data, mems);
      if Enough(t.cols, mems[0]) {
        var r := Save(t, data[0], mems[0]);
        SaveRowsCells(r, data[1..], mems[1..]);
        assert data[0][..t.cols] == data[0] && data[..n][1..] == data[1..][..n - 1];
        assert (t.cells + data[0]) + Flat(data[1..][..n - 1]) == t.cells + Flat(data[..n]);
      }
    }
  }

  // How many of the header's strings were copied.
  function Copied(header: Row, first: Memory): (m: nat)
    ensures m <= |header|
  {
    if !first.grows then 0 else if first.copies < |header| then first.copies else |header|
  }

  // The table when the header was not saved: what was copied of it, then the rows.
  lemma TableWithoutHeader(header: Row, data: seq<Row>, first: Memory, mems: seq<Memory>)
    returns (t: Table, before: seq<string>, n: nat)
    requires Rectangular(|header|, data, mems) && !Enough(|header|, first)
    ensures t == Query(header, data, first, mems) && n == Afforded(|header|, data, mems) <= |data|
    ensures before == header[..Copied(header, first)] && |before| == Copied(header, first)
    ensures t.Sound() && t.cols == |header| && t.rows == n && before + Flat(data[..n]) <= t.cells
  {
    var start := Table(|header|, [], 0, 0);
    StartIsPacked(|header|);
    PackedIsSound(start);
    EveryRowGrows(start);
    SaveCounts(start, header, first);
    var named := Save(start, header, first);
    before, n := header[..Copied(header, first)], Afforded(|header|, data, mems);
    assert named.cells == before;
    SaveRowsKeeps(named, data, mems);
    SaveRowsCells(named, data, mems);
    t := SaveRows(named, data, mems);
  }

  // All n rows but one, each made of the end of a row and the beginning of the next.
  ghost predicate Shifted(fetched: seq<Row>, data: seq<Row>, n: nat, shift: nat) {
    && |fetched| == (if n > 1 then n - 1 else 0) && n <= |data|
    && forall k :: 0 <= k < |fetched| ==> Straddled(fetched[k], data[k], data[k + 1], shift)
  }

  ghost predicate Straddled(row: Row, a: Row, b: Row, shift: nat) {
    shift <= |a| && shift <= |b| && row == a[shift..] + b[..shift]
  }

  // What fetching delivers then: such rows, shifted by what was copied of the header.
  lemma FetchedWithoutHeader(header: Row, data: seq<Row>, first: Memory, mems: seq<Memory>)
    requires Rectangular(|header|, data, mems) && !Enough(|header|, first)
    ensures var t := Query(header, data, first, mems);
      t.Sound()
      && Shifted(t.Fetched(), data, Afforded(|header|, data, mems), |header| - Copied(header, first))
  {
    var t, before, n := TableWithoutHeader(header, data, first, mems);
    ShiftedTable(t, before, data, n);
  }

  lemma ShiftedTable(t: Table, before: seq<string>, data: seq<Row>, n: nat)
    requires n <= |data| && t.Sound() && |before| <= t.cols && before + Flat(data[..n]) <= t.cells && t.rows == n
    requires forall i :: 0 <= i < |data| ==> |data[i]| == t.cols
    ensures Shifted(t.Fetched(), data, n, t.cols - |before|)
  {
    forall k | 0 <= k < |t.Fetched()|
      ensures Straddled(t.Fetched()[k], data[k], data[k + 1], t.cols - |before|)
    {
      FetchedRow(t, before, data, n, k);
    }
  }

  // If nothing was copied of it, these are all rows but the first.
  lemma FirstRowIsMissing(header: Row, data: seq<Row>, first: Memory, mems: seq<Memory>)
    requires Rectangular(|header|, data, mems) && !Enough(|header|, first) && Copied(header, first) == 0
    requires Afforded(|header|, data, mems) > 0
    ensures var t := Query(header, data, first, mems);
      t.Sound() && t.Fetched() == data[1..Afforded(|header|, data, mems)]
  {
    FetchedWithoutHeader(header, data, first, mems);
    WholeShift(Query(header, data, first, mems).Fetched(), data, Afforded(|header|, data, mems), |header|);
  }

  lemma WholeShift(fetched: seq<Row>, data: seq<Row>, n: nat, cols: nat)
    requires n > 0 && Shifted(fetched, data, n, cols) && forall i :: 0 <= i < |data| ==> |data[i]| == cols
    ensures fetched == data[1..n]
  {
    forall k | 0 <= k < |fetched|
      ensures fetched[k] == data[1..n][k]
    {
      assert Straddled(fetched[k], data[k], data[k + 1], cols);
      assert data[k][cols..] == [] && data[k + 1][..cols] == data[k + 1] == data[1..n][k];
    }
  }

  lemma FetchedRow(t: Table, before: seq<string>, data: seq<Row>, n: nat, k: nat)
    requires n <= |data| && t.Sound() && |before| <= t.cols && before + Flat(data[..n]) <= t.cells && t.rows == n
    requires k + 1 < n && forall i :: 0 <= i < |data| ==> |data[i]| == t.cols
    ensures t.Fetched()[k] == data[k][t.cols - |before|..] + data[k + 1][..t.cols - |before|]
  {
    var rows := data[..n];
    Straddles(before, rows, t.cols, k);
    RowFits(k + 1, t.rows, t.cols);
    var b := (k + 1) * t.cols;
    assert t.cells[b..b + t.cols] == (before + Flat(rows))[b..b + t.cols];
    assert t.Fetched()[k] == t.At(k + 1);
  }

  // When memory never runs out, the table has no gaps and no room to spare.
  lemma {:induction false} NothingIsWasted(t: Table, data: seq<Row>, mems: seq<Memory>)
    requires Packed(t) && Rectangular(t.cols, data, mems) && Afforded(t.cols, data, mems) == |data|
    ensures Packed(SaveRows(t, data, mems)) && SaveRows(t, data, mems).rows == t.rows + |data|
    decreases |data|
  {
    if data != [] {
      PackedSave(t, data[0], mems[0]);
      NothingIsWasted(Save(t, data[0], mems[0]), data[1..], mems[1..]);
    }
  }

  // ------------------------------------------------------------------
  // The table in memory.

  lemma OneRowMore(rows: nat, cols: nat, pos: nat)
    requires rows * cols <= pos
    ensures (rows + 1) * cols <= pos + cols
  {
  }

  // A string on the heap.
  class Cell {
    const text: string
    var live: bool

    constructor (text: string)
      ensures this.text == text && live
    {
      this.text := text;
      live := true;
    }

    // `free`, which is only ever called on what is allocated.
    method Free()
      requires live
      modifies this
      ensures !live
    {
      live := false;
    }
  }

  // A bigger block with the same beginning; what follows is not initialised.
  method Realloc(old_: array?<Cell?>, size: nat) returns (block: array<Cell?>)
    requires old_ != null ==> old_.Length <= size
    ensures fresh(block) && block.Length == size
    ensures old_ != null ==> block[..old_.Length] == old_[..]
  {
    block := new Cell?[size];
    if old_ != null {
      for i := 0 to old_.Length
        invariant block[..i] == old_[..i]
      {
        block[i] := old_[i];
      }
    }
  }

  // Set every place from `pos` on to NULL.
  method Clear(block: array<Cell?>, pos: nat)
    requires pos <= block.Length
    modifies block
    ensures forall i :: 0 <= i < block.Length ==> block[i] == if i < pos then old(block[i]) else null
  {
    for x := pos to block.Length
      invariant forall i :: 0 <= i < block.Length ==> block[i] == if pos <= i < x then null else old(block[i])
    {
      block[x] := null;
    }
  }

  // Free what the places point at.
  method FreeCells(block: array<Cell?>, ghost cells: seq<Cell>)
    requires |cells| <= block.Length
    requires forall i :: 0 <= i < block.Length ==> block[i] == if i < |cells| then cells[i] else null
    requires forall i :: 0 <= i < |cells| ==> cells[i].live
    requires forall i, j :: 0 <= i < j < |cells| ==> cells[i] != cells[j]
    modifies cells
    ensures forall i :: 0 <= i < |cells| ==> !cells[i].live
  {
    for i := 0 to block.Length
      invariant forall j :: 0 <= j < |cells| ==> cells[j].live == (i <= j)
    {
      var cell := block[i];
      if cell != null {
        cell.Free();
      }
    }
  }

  function Texts(cells: seq<Cell>): (s: seq<string>)
    ensures |s| == |cells| && forall i :: 0 <= i < |s| ==> s[i] == cells[i].text
  {
    if cells == [] then [] else Texts(cells[..|cells| - 1]) + [cells[|cells| - 1].text]
  }

  class Result {
    var tbl: array?<Cell?>
    var tblpos: nat            // offsets from `tbl`
    var tbllast: nat
    var tblsz: nat
    var rows: nat
    const cols: nat
    var crow: nat
    ghost var cells: seq<Cell> // what is stored, in order

    ghost predicate Valid()
      reads this, tbl, cells
    {
      && tblsz == tbllast == (if tbl == null then 0 else tbl.Length)
      && |cells| == tblpos <= tbllast
      && rows * cols <= tblpos && (cols == 0 ==> tblsz == 0)
      && (forall i :: 0 <= i < tblpos ==> tbl[i] == cells[i] && cells[i].live)
      && (forall i :: tblpos <= i < tbllast ==> tbl[i] == null)
      && (forall i, j :: 0 <= i < j < tblpos ==> cells[i] != cells[j])
    }

    ghost function View(): (t: Table)
      reads this
    {
      Table(cols, Texts(cells), tblsz, rows)
    }

    constructor (cols: nat)
      ensures Valid() && View() == Table(cols, [], 0, 0) && crow == 0 && tbl == null
    {
      this.cols := cols;
      tbl, tblpos, tbllast, tblsz, rows, crow := null, 0, 0, 0, 0, 0;
      cells := [];
    }

    // Make room for one more row, and clear it.
    method Grow(newsize: nat)
      requires Valid() && newsize == tblsz + cols
      modifies this
      ensures Valid() && fresh(tbl) && tbl != null
      ensures tblsz == newsize && cells == old(cells) && rows == old(rows) && crow == old(crow)
    {
      var np := Realloc(tbl, newsize);
      assert forall i :: 0 <= i < tblpos ==> np[i] == np[..tbllast][i];
      tblsz := newsize;
      tbllast := tblsz;
      tbl := np;
      Clear(np, tblpos);
    }

    // Copy one string to the next place.
    method Put(text: string)
      requires Valid() && tblpos < tbllast
      modifies this, tbl
      ensures Valid() && tbl == old(tbl) && tblsz == old(tblsz) && rows == old(rows) && crow == old(crow)
      ensures Texts(cells) == old(Texts(cells)) + [text]
      ensures |cells| == old(|cells|) + 1 && fresh(cells[tblpos - 1]) && cells[..tblpos - 1] == old(cells)
    {
      var cell := new Cell(text);
      tbl[tblpos] := cell;
      tblpos := tblpos + 1;
      cells := cells + [cell];
    }

    method SaveRow(data: Row, mem: Memory) returns (saved: bool)
      requires Valid() && |data| == cols
      modifies this, tbl
      ensures Valid() && crow == old(crow) && (tbl == old(tbl) || fresh(tbl))
      ensures View() == Save(old(View()), data, mem)
      ensures saved <==> Enough(cols, mem)
    {
      ghost var before := View();
      EveryRowGrows(before);
      var newsize := tblsz + cols;
      if (tbllast - tblpos) / 8 < newsize {
        if !mem.grows {
          return false;
        }
        Grow(newsize);
      }
      saved := CopyRow(data, mem);
    }

    // The loop that copies.
    method CopyRow(data: Row, mem: Memory) returns (saved: bool)
      requires Valid() && |data| == cols && tblpos + cols <= tbllast
      modifies this, tbl
      ensures Valid() && crow == old(crow) && tbl == old(tbl) && tblsz == old(tblsz)
      ensures var n := if mem.copies < cols then mem.copies else cols;
        Texts(cells) == old(Texts(cells)) + data[..n] && rows == old(rows) + if n == cols then 1 else 0
      ensures saved <==> mem.copies >= cols
    {
      ghost var texts, pos := Texts(cells), tblpos;
      for i := 0 to cols
        invariant Valid() && tbl == old(tbl) && tblsz == old(tblsz) && rows == old(rows) && crow == old(crow)
        invariant tblpos == pos + i && i <= mem.copies
        invariant Texts(cells) == texts + data[..i]
      {
        if i < mem.copies {
          Put(data[i]);
        } else {
          tbl[tblpos] := null;
          return false;
        }
      }
      OneRowMore(rows, cols, pos);
      rows := rows + 1;
      return true;
    }

    method NumRows() returns (n: nat)
      requires Valid()
      ensures n == |View().Fetched()|
    {
      n := if rows > 1 then rows - 1 else 0;
    }

    // The next row, as an offset from `tbl`; nothing when there is none.
    method FetchRow() returns (found: bool, row: nat)
      requires Valid()
      modifies this`crow
      ensures Valid()
      ensures found <==> old(crow) < |View().Fetched()|
      ensures found ==> crow == old(crow) + 1 && row + cols <= tblpos
      ensures found ==> Texts(cells)[row..row + cols] == View().Fetched()[old(crow)]
      ensures !found ==> crow == old(crow)
    {
      if crow + 1 < rows {
        crow := crow + 1;
        RowFits(crow, rows, cols);
        return true, cols * crow;
      }
      return false, 0;
    }

    // The strings a fetched row points at.
    method ReadRow(row: nat) returns (texts: Row)
      requires Valid() && row + cols <= tblpos
      ensures texts == Texts(cells)[row..row + cols]
    {
      texts := [];
      for j := 0 to cols
        invariant texts == Texts(cells)[row..row + j]
      {
        texts := texts + [tbl[row + j].text];
      }
    }

    // Release every string and then the table: each string is freed once, and none is left.
    method FreeResult()
      requires Valid()
      modifies this, cells
      ensures forall i :: 0 <= i < |old(cells)| ==> !old(cells)[i].live
      ensures tbl == null
    {
      if tbl != null {
        FreeCells(tbl, cells);
        tbl := null;
      }
    }
  }

  // Fetch a row and read it, as the callers do.
  method NextRow(r: Result) returns (found: bool, texts: Row)
    requires r.Valid()
    modifies r`crow
    ensures r.Valid() && r.View() == old(r.View())
    ensures found <==> old(r.crow) < |r.View().Fetched()|
    ensures if found then r.crow == old(r.crow) + 1 && texts == r.View().Fetched()[old(r.crow)] else r.crow == old(r.crow)
  {
    var row;
    found, row := r.FetchRow();
    texts := [];
    if found {
      texts := r.ReadRow(row);
    }
  }

  // The rows of a result, one fetch after the other until there is none.
  method FetchAll(r: Result) returns (all: seq<Row>)
    requires r.Valid() && r.crow == 0
    modifies r`crow
    ensures all == old(r.View().Fetched())
  {
    all := [];
    ghost var want := r.View().Fetched();
    var found, texts := NextRow(r);
    while found
      invariant r.Valid() && want == r.View().Fetched()
      invariant r.crow == |all| + (if found then 1 else 0)
      invariant |all| <= |want| && forall k :: 0 <= k < |all| ==> all[k] == want[k]
      invariant found <==> |all| < |want|
      invariant found ==> texts == want[|all|]
      decreases |want| - |all|
    {
      all := all + [texts];
      found, texts := NextRow(r);
    }
  }

  // `db_query` for one statement with a result.
  method DbQuery(header: Row, data: seq<Row>, first: Memory, mems: seq<Memory>) returns (r: Result)
    requires Rectangular(|header|, data, mems)
    ensures r.Valid() && r.crow == 0
    ensures r.View() == Query(header, data, first, mems)
  {
    r := new Result(|header|);
    var saved := r.SaveRow(header, first);
    var i := 0;
    while i < |data|
      invariant 0 <= i <= |data|
      invariant fresh(r) && (r.tbl != null ==> fresh(r.tbl)) && r.cols == |header|
      invariant r.Valid() && r.crow == 0
      invariant SaveRows(r.View(), data[i..], mems[i..]) == Query(header, data, first, mems)
    {
      assert data[i..][1..] == data[i + 1..] && mems[i..][1..] == mems[i + 1..];
      saved := r.SaveRow(data[i], mems[i]);
      if !saved {
        break;
      }
      i := i + 1;
    }
  }
}
