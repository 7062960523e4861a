/** The count-min sketch's count matrix in table `ngramfreq`: `StoreCM`
    inserts one `(row, col, count)` row per cell in row-major order, and
    `LoadCM` rebuilds a matrix of shape (max row + 1) x (max col + 1). */
module CountMatrix {
  import opened Text
  import opened Tables
  import opened Storage

  const MaxUint32: int := 0xffff_ffff

  type Matrix = seq<seq<nat>>

  // ----------------------------------------------------------------- store

  /** The cells of row `i`, in column order. */
  function RowCells(i: int, row: seq<nat>): seq<CellRow> {
    if row == [] then [] else RowCells(i, row[..|row| - 1]) + [CellRow(i, |row| - 1, row[|row| - 1])]
  }

  lemma {:induction false} RowCellsPrefix(i: int, row: seq<nat>, j: nat)
    requires j <= |row|
    ensures RowCells(i, row[..j]) <= RowCells(i, row)
    decreases |row|
  {
    if j < |row| {
      var front := row[..|row| - 1];
      assert row[..j] == front[..j];
      RowCellsPrefix(i, front, j);
    } else {
      assert row[..j] == row;
    }
  }

  lemma {:induction false} InsertStmtsPrefix(a: seq<CellRow>, b: seq<CellRow>)
    requires a <= b
    ensures InsertStmts(a) <= InsertStmts(b)
  {
    assert b == a + b[|a|..];
    InsertStmtsConcat(a, b[|a|..]);
  }

  /** The cells of the first `k` rows, in row-major order. */
  function CellsUpTo(m: Matrix, k: nat): seq<CellRow>
    requires k <= |m|
  {
    if k == 0 then [] else CellsUpTo(m, k - 1) + RowCells(k - 1, m[k - 1])
  }

  function Cells(m: Matrix): seq<CellRow> {
    CellsUpTo(m, |m|)
  }

  /** One `insert into ngramfreq values (?, ?, ?)` per cell. */
  function InsertStmts(cells: seq<CellRow>): seq<Stmt> {
    if cells == [] then []
    else
      var c := cells[|cells| - 1];
      InsertStmts(cells[..|cells| - 1]) + [InsertCell(c.row, c.col, c.count)]
  }

  lemma {:induction false} InsertStmtsConcat(a: seq<CellRow>, b: seq<CellRow>)
    ensures InsertStmts(a + b) == InsertStmts(a) + InsertStmts(b)
    decreases |b|
  {
    if b == [] {
      assert a + b == a;
    } else {
      var front := b[..|b| - 1];
      assert (a + b)[..|a + b| - 1] == a + front;
      InsertStmtsConcat(a, front);
      AppendAssoc(InsertStmts(a), InsertStmts(front), [InsertCell(b[|b| - 1].row, b[|b| - 1].col, b[|b| - 1].count)]);
    }
  }

  /** The inserts append the cells to `ngramfreq` and touch nothing else. */
  lemma {:induction false} InsertEffect(t: Tables, cells: seq<CellRow>)
    ensures ApplyAll(t, InsertStmts(cells)) == t.(ngramfreq := t.ngramfreq + cells)
    decreases |cells|
  {
    if cells == [] {
      assert t.ngramfreq + cells == t.ngramfreq;
    } else {
      var front := cells[..|cells| - 1];
      var c := cells[|cells| - 1];
      InsertEffect(t, front);
      ApplyAllConcat(t, InsertStmts(front), [InsertCell(c.row, c.col, c.count)]);
      var t1 := ApplyAll(t, InsertStmts(front));
      assert ApplyAll(t1, [InsertCell(c.row, c.col, c.count)]) == Apply(t1, InsertCell(c.row, c.col, c.count)) by {
        RunCons(t1, None, InsertCell(c.row, c.col, c.count), []);
        assert [InsertCell(c.row, c.col, c.count)] + [] == [InsertCell(c.row, c.col, c.count)];
      }
      AppendAssoc(t.ngramfreq, front, [c]);
      assert front + [c] == cells;
    }
  }

  lemma {:induction false} CellsUpToPrefix(m: Matrix, k: nat, k': nat)
    requires k <= k' <= |m|
    ensures CellsUpTo(m, k) <= CellsUpTo(m, k')
    decreases k'
  {
    if k < k' {
      CellsUpToPrefix(m, k, k' - 1);
    }
  }

  /** The inner loop of `StoreCM`: an insert per cell of row `i`, in
      column order, returning at the first rejected one. */
  method InsertRow(db: Db, i: nat, row: seq<nat>) returns (ok: bool)
    requires db.Valid()
    modifies db
    ensures db.Valid() && db.inTx == old(db.inTx)
    ensures Run(old(db.tables), old(db.budget), InsertStmts(RowCells(i, row))) == Outcome(db.tables, db.budget, !ok)
    ensures db.inTx ==> db.committed == old(db.committed)
  {
    ghost var t0 := db.tables;
    ghost var b0 := db.budget;
    assert row[..0] == [];
    var j := 0;
    while j < |row|
      invariant 0 <= j <= |row|
      invariant db.Valid() && db.inTx == old(db.inTx)
      invariant db.inTx ==> db.committed == old(db.committed)
      invariant Run(t0, b0, InsertStmts(RowCells(i, row[..j]))) == Outcome(db.tables, db.budget, false)
    {
      ghost var done := RowCells(i, row[..j]);
      ghost var c := CellRow(i, j, row[j]);
      assert InsertStmts(RowCells(i, row[..j + 1])) == InsertStmts(done) + [InsertCell(i, j, row[j])] by {
        assert row[..j + 1][..j] == row[..j];
        assert (done + [c])[..|done|] == done;
      }
      RunSnoc(t0, b0, InsertStmts(done), InsertCell(i, j, row[j]));
      ok := db.Exec(InsertCell(i, j, row[j]));
      if !ok {
        assert Run(t0, b0, InsertStmts(RowCells(i, row))) == Run(t0, b0, InsertStmts(RowCells(i, row[..j + 1]))) by {
          RowCellsPrefix(i, row, j + 1);
          InsertStmtsPrefix(RowCells(i, row[..j + 1]), RowCells(i, row));
          RunPrefixFailed(t0, b0, InsertStmts(RowCells(i, row[..j + 1])), InsertStmts(RowCells(i, row)));
        }
        return;
      }
      j := j + 1;
    }
    assert row[..j] == row;
    ok := true;
  }

  /** One more row after the first `i`. */
  lemma CellsStep(t: Tables, budget: Option<nat>, m: Matrix, i: nat)
    requires i < |m|
    ensures Run(t, budget, InsertStmts(CellsUpTo(m, i + 1)))
            == var o := Run(t, budget, InsertStmts(CellsUpTo(m, i)));
               if o.failed then o else Run(o.tables, o.budget, InsertStmts(RowCells(i, m[i])))
  {
    InsertStmtsConcat(CellsUpTo(m, i), RowCells(i, m[i]));
    RunConcat(t, budget, InsertStmts(CellsUpTo(m, i)), InsertStmts(RowCells(i, m[i])));
  }

  /** Once the inserts of the first `k` rows are rejected, the rest change
      nothing. */
  lemma CellsFailed(t: Tables, budget: Option<nat>, m: Matrix, k: nat)
    requires k <= |m| && Run(t, budget, InsertStmts(CellsUpTo(m, k))).failed
    ensures Run(t, budget, InsertStmts(Cells(m))) == Run(t, budget, InsertStmts(CellsUpTo(m, k)))
  {
    CellsUpToPrefix(m, k, |m|);
    InsertStmtsPrefix(CellsUpTo(m, k), Cells(m));
    RunPrefixFailed(t, budget, InsertStmts(CellsUpTo(m, k)), InsertStmts(Cells(m)));
  }

  /** The nested loop of `StoreCM`: the rows in order, returning at the
      first rejected insert. */
  method InsertCells(db: Db, m: Matrix) returns (ok: bool)
    requires db.Valid()
    modifies db
    ensures db.Valid() && db.inTx == old(db.inTx)
    ensures Run(old(db.tables), old(db.budget), InsertStmts(Cells(m))) == Outcome(db.tables, db.budget, !ok)
    ensures db.inTx ==> db.committed == old(db.committed)
  {
    ghost var t0 := db.tables;
    ghost var b0 := db.budget;
    var i := 0;
    while i < |m|
      invariant 0 <= i <= |m|
      invariant db.Valid() && db.inTx == old(db.inTx)
      invariant db.inTx ==> db.committed == old(db.committed)
      invariant Run(t0, b0, InsertStmts(CellsUpTo(m, i))) == Outcome(db.tables, db.budget, false)
    {
      CellsStep(t0, b0, m, i);
      ok := InsertRow(db, i, m[i]);
      if !ok {
        CellsFailed(t0, b0, m, i + 1);
        return;
      }
      i := i + 1;
    }
    ok := true;
  }

  /** `StoreCM` of `internal/storage`: the inserts in one transaction, then
      the commit; a rejected insert returns at once and leaves the
      transaction open, uncommitted. */
  method StoreCMInTx(db: Db, m: Matrix) returns (err: Option<Error>)
    requires db.Valid() && !db.inTx
    modifies db
    ensures db.Valid()
    ensures var o := Run(old(db.tables), old(db.budget), InsertStmts(Cells(m)));
      if o.failed then
        err == Some(Rejected) && db.inTx && db.tables == o.tables && db.committed == old(db.committed)
      else
        !db.inTx && db.budget == Spend(o.budget)
        && (if CanRun(o.budget) then err == None && db.committed == o.tables
            else err == Some(Rejected) && db.committed == old(db.committed))
  {
    db.Begin();
    var ok := InsertCells(db, m);
    if !ok {
      return Some(Rejected);
    }
    ok := db.Commit();
    err := if ok then None else Some(Rejected);
  }

  /** `StoreCM` of `storage`: the same inserts with no transaction. */
  method StoreCM(db: Db, m: Matrix) returns (err: Option<Error>)
    requires db.Valid() && !db.inTx
    modifies db
    ensures db.Valid() && !db.inTx
    ensures Run(old(db.tables), old(db.budget), InsertStmts(Cells(m))) == Outcome(db.tables, db.budget, err.Some?)
  {
    var ok := InsertCells(db, m);
    err := if ok then None else Some(Rejected);
  }

  // ------------------------------------------------------------------ load

  /** A cell's row, or its column. */
  function Key(c: CellRow, byRow: bool): int {
    if byRow then c.row else c.col
  }

  /** The largest row (or column) over the cells. */
  function MaxOf(cells: seq<CellRow>, byRow: bool): int
    requires cells != []
  {
    var c := cells[|cells| - 1];
    if |cells| == 1 then Key(c, byRow)
    else var m := MaxOf(cells[..|cells| - 1], byRow); if Key(c, byRow) > m then Key(c, byRow) else m
  }

  /** `MaxOf` is an upper bound that some cell reaches. */
  lemma {:induction false} MaxOfIs(cells: seq<CellRow>, byRow: bool, v: int)
    requires cells != []
    requires forall c :: c in cells ==> Key(c, byRow) <= v
    requires exists c :: c in cells && Key(c, byRow) == v
    ensures MaxOf(cells, byRow) == v
    decreases |cells|
  {
    var front := cells[..|cells| - 1];
    var last := cells[|cells| - 1];
    var w :| w in cells && Key(w, byRow) == v;
    if |cells| == 1 {
      assert w == last;
    } else {
      assert forall c :: c in front ==> c in cells;
      assert Key(last, byRow) <= v;
      if Key(last, byRow) == v {
        MaxOfBound(front, byRow, v);
      } else {
        assert w in front by {
          assert cells == front + [last];
        }
        MaxOfIs(front, byRow, v);
      }
    }
  }

  lemma {:induction false} MaxOfAbove(cells: seq<CellRow>, byRow: bool)
    requires cells != []
    ensures forall c :: c in cells ==> Key(c, byRow) <= MaxOf(cells, byRow)
    decreases |cells|
  {
    if |cells| > 1 {
      var front := cells[..|cells| - 1];
      MaxOfAbove(front, byRow);
      assert cells == front + [cells[|cells| - 1]];
    }
  }

  lemma {:induction false} MaxOfBound(cells: seq<CellRow>, byRow: bool, v: int)
    requires cells != [] && forall c :: c in cells ==> Key(c, byRow) <= v
    ensures MaxOf(cells, byRow) <= v
    decreases |cells|
  {
    if |cells| > 1 {
      var front := cells[..|cells| - 1];
      assert forall c :: c in front ==> c in cells;
      MaxOfBound(front, byRow, v);
    }
  }


  /** The count the last cell at `(i, j)` holds, 0 when there is none: what
      `cmrows[i][j] = count` leaves after the scan. */
  function Entry(cells: seq<CellRow>, i: int, j: int): nat {
    if cells == [] then 0
    else
      var c := cells[|cells| - 1];
      if c.row == i && c.col == j && c.count >= 0 then c.count else Entry(cells[..|cells| - 1], i, j)
  }

  /** A row scans into three `uint32` values. */
  predicate Fits(c: CellRow) {
    0 <= c.row <= MaxUint32 && 0 <= c.col <= MaxUint32 && 0 <= c.count <= MaxUint32
  }

  datatype LoadError =
    | Refused      // the database rejected a query
    | NullShape    // `max(row) + 1` of an empty table is NULL
    | Panics       // `make` with a negative length
    | ScanFailed   // a row does not scan into `uint32`

  /** What `LoadCM` returns on a table of cells, with the number of queries
      the database still carries out: the error, or the shape. */
  function LoadResult(cells: seq<CellRow>, budget: Option<nat>): Option<LoadError> {
    if !CanRun(budget) then Some(Refused)
    else if cells == [] then Some(NullShape)
    else if MaxOf(cells, true) + 1 < 0 || (MaxOf(cells, true) + 1 > 0 && MaxOf(cells, false) + 1 < 0) then Some(Panics)
    else if !CanRun(Spend(budget)) then Some(Refused)
    else if exists c :: c in cells && !Fits(c) then Some(ScanFailed)
    else None
  }

  /** The scan loop of `LoadCM`: each row sets its cell of the zero matrix;
      the first row that does not scan stops it. */
  method ScanCells(a: array2<nat>, cells: seq<CellRow>) returns (ok: bool)
    requires forall i, j :: 0 <= i < a.Length0 && 0 <= j < a.Length1 ==> a[i, j] == 0
    requires forall c :: c in cells && Fits(c) ==> c.row < a.Length0 && c.col < a.Length1
    modifies a
    ensures ok <==> forall c :: c in cells ==> Fits(c)
    ensures ok ==> forall i, j :: 0 <= i < a.Length0 && 0 <= j < a.Length1 ==> a[i, j] == Entry(cells, i, j)
  {
    var k := 0;
    while k < |cells|
      invariant 0 <= k <= |cells|
      invariant forall q :: q in cells[..k] ==> Fits(q)
      invariant forall i, j :: 0 <= i < a.Length0 && 0 <= j < a.Length1 ==> a[i, j] == Entry(cells[..k], i, j)
    {
      var c := cells[k];
      if !Fits(c) {
        assert c in cells;
        return false;
      }
      assert cells[..k + 1][..k] == cells[..k] && cells[..k + 1] == cells[..k] + [c];
      a[c.row, c.col] := c.count;
      k := k + 1;
    }
    assert cells[..k] == cells;
    ok := true;
  }

  /** `LoadCM`: the shape query, a zero matrix of that shape, then the scan
      of every row, each setting its cell. */
  method LoadCM(db: Db) returns (err: Option<LoadError>, a: array2<nat>)
    requires db.Valid()
    modifies db
    ensures db.Valid() && db.tables == old(db.tables) && db.committed == old(db.committed) && db.inTx == old(db.inTx)
    ensures err == LoadResult(db.tables.ngramfreq, old(db.budget))
    ensures err.None? ==> var cells := db.tables.ngramfreq;
      a.Length0 == MaxOf(cells, true) + 1 && a.Length1 == MaxOf(cells, false) + 1
      && forall i, j :: 0 <= i < a.Length0 && 0 <= j < a.Length1 ==> a[i, j] == Entry(cells, i, j)
  {
    a := new nat[0, 0];
    var ok := db.Exec(QueryShape);
    if !ok {
      return Some(Refused), a;
    }
    var cells := db.tables.ngramfreq;
    if cells == [] {
      return Some(NullShape), a;
    }
    var nrows := MaxOf(cells, true) + 1;
    var ncols := MaxOf(cells, false) + 1;
    if nrows < 0 || (nrows > 0 && ncols < 0) {
      return Some(Panics), a;
    }
    var cols := if nrows == 0 then 0 else ncols;
    a := new nat[nrows, cols]((i, j) => 0);
    ok := db.Exec(QueryCells);
    if !ok {
      return Some(Refused), a;
    }
    assert forall c :: c in cells && Fits(c) ==> c.row < a.Length0 && c.col < a.Length1 by {
      MaxOfAbove(cells, true);
      MaxOfAbove(cells, false);
    }
    ok := ScanCells(a, cells);
    if !ok {
      return Some(ScanFailed), a;
    }
    assert nrows > 0 by {
      assert cells[0] in cells;
      MaxOfAbove(cells, true);
    }
    err := None;
  }

  // ------------------------------------------------------------ round trip

  /** A count matrix as the sketch holds it: every row as long as the first,
      at least one cell, indices and counts within `uint32`. */
  predicate Rectangular(m: Matrix) {
    |m| > 0 && |m[0]| > 0 && |m| <= MaxUint32 + 1 && |m[0]| <= MaxUint32 + 1
    && (forall i :: 0 <= i < |m| ==> |m[i]| == |m[0]|)
    && (forall i, j :: 0 <= i < |m| && 0 <= j < |m[i]| ==> m[i][j] <= MaxUint32)
  }

  lemma {:induction false} RowCellsMembers(i: int, row: seq<nat>)
    ensures forall c :: c in RowCells(i, row) ==> c.row == i && 0 <= c.col < |row| && c.count == row[c.col]
    ensures forall j :: 0 <= j < |row| ==> CellRow(i, j, row[j]) in RowCells(i, row)
    decreases |row|
  {
    if row != [] {
      var front := row[..|row| - 1];
      RowCellsMembers(i, front);
      forall j | 0 <= j < |row| ensures CellRow(i, j, row[j]) in RowCells(i, row) {
        if j < |row| - 1 {
          assert front[j] == row[j];
          assert CellRow(i, j, front[j]) in RowCells(i, front);
        }
      }
    }
  }

  /** The cells of the first `k` rows are exactly one per position, holding
      that position's count. */
  lemma {:induction false} CellsMembers(m: Matrix, k: nat)
    requires k <= |m|
    ensures forall c :: c in CellsUpTo(m, k) ==> 0 <= c.row < k && 0 <= c.col < |m[c.row]| && c.count == m[c.row][c.col]
    ensures forall i, j :: 0 <= i < k && 0 <= j < |m[i]| ==> CellRow(i, j, m[i][j]) in CellsUpTo(m, k)
    decreases k
  {
    if k > 0 {
      CellsMembers(m, k - 1);
      RowCellsMembers(k - 1, m[k - 1]);
    }
  }

  /** A position every cell of which holds `v` reads back as `v`. */
  lemma {:induction false} EntryOf(cells: seq<CellRow>, i: int, j: int, v: nat)
    requires CellRow(i, j, v) in cells
    requires forall c :: c in cells && c.row == i && c.col == j ==> c.count == v
    ensures Entry(cells, i, j) == v
    decreases |cells|
  {
    var front := cells[..|cells| - 1];
    var last := cells[|cells| - 1];
    assert cells == front + [last];
    if !(last.row == i && last.col == j) {
      EntryOf(front, i, j, v);
    }
  }

  /** What `StoreCM` writes into an empty `ngramfreq`, `LoadCM` reads back:
      the shape of the matrix and every count. */
  lemma StoreLoadRoundTrip(t: Tables, m: Matrix)
    requires t.ngramfreq == [] && Rectangular(m)
    ensures ApplyAll(t, InsertStmts(Cells(m))).ngramfreq == Cells(m)
    ensures LoadResult(Cells(m), None) == None
    ensures MaxOf(Cells(m), true) + 1 == |m| && MaxOf(Cells(m), false) + 1 == |m[0]|
    ensures forall i, j :: 0 <= i < |m| && 0 <= j < |m[0]| ==> Entry(Cells(m), i, j) == m[i][j]
  {
    var cells := Cells(m);
    assert ApplyAll(t, InsertStmts(cells)).ngramfreq == cells by {
      InsertEffect(t, cells);
      assert [] + cells == cells;
    }
    CellsMembers(m, |m|);
    assert CellRow(|m| - 1, |m[0]| - 1, m[|m| - 1][|m[0]| - 1]) in cells;
    assert MaxOf(cells, true) == |m| - 1 by {
      MaxOfIs(cells, true, |m| - 1);
    }
    assert MaxOf(cells, false) == |m[0]| - 1 by {
      MaxOfIs(cells, false, |m[0]| - 1);
    }
    assert forall c :: c in cells ==> Fits(c);
    forall i, j | 0 <= i < |m| && 0 <= j < |m[0]| ensures Entry(cells, i, j) == m[i][j] {
      EntryOf(cells, i, j, m[i][j]);
    }
  }
}
