/** The database functions of the single-file application (malla.py): its
    days-in-month rule, loading the month's wide grid, saving an edited grid
    back into the assignment table, the shift-code registry and the typed
    configuration. */
module Malla {
  import opened Wrappers
  import opened Strings
  import opened Roster

  // ---------------------------------------------------------------------
  // Days in month.
  // ---------------------------------------------------------------------

  /** The number of day columns of a month: 28 for February 2026 only, 30 for
      April, June, September and November, 31 for everything else. */
  function DaysInMonth(mes: int, ano: int): (n: int)
    ensures n == 28 || n == 30 || n == 31
    ensures n == 28 <==> mes == 2 && ano == 2026
    ensures n == 30 <==> mes == 4 || mes == 6 || mes == 9 || mes == 11
  {
    if mes == 2 && ano == 2026 then 28
    else if mes == 4 || mes == 6 || mes == 9 || mes == 11 then 30
    else 31
  }

  /** The rule agrees with the calendar on every month except February of any
      year other than 2026, where it gives 31 days. */
  lemma DaysInMonthVersusCalendar(mes: int, ano: int)
    requires 1 <= mes <= 12
    ensures DaysInMonth(mes, ano) == CalendarDays(mes, ano) <==> mes != 2 || ano == 2026
    ensures mes == 2 && ano != 2026 ==> DaysInMonth(mes, ano) == 31
  {
  }

  // ---------------------------------------------------------------------
  // Loading the grid (get_malla_turnos).
  // ---------------------------------------------------------------------

  /** An employee's grid row with the day columns 1..upTo added, each holding
      the code shown for that day. */
  function LoadedRow(e: Employee, store: Store, mes: int, ano: int, upTo: int): GridRow
    decreases upTo
  {
    if upTo <= 0 then AttributeRow(e)
    else
      var row := LoadedRow(e, store, mes, ano, upTo - 1);
      row.(cells := row.cells[Header(upTo, mes, ano) := Text(ShownCode(store, SlotKey(e.id, mes, ano, upTo)))])
  }

  /** Loading day columns leaves the employee's attributes as they are. */
  lemma {:induction false} LoadedRowShows(e: Employee, store: Store, mes: int, ano: int, upTo: int)
    ensures ShowsEmployee(LoadedRow(e, store, mes, ano, upTo), e)
    decreases upTo
  {
    if upTo > 0 {
      LoadedRowShows(e, store, mes, ano, upTo - 1);
    }
  }

  /** A row loaded up to `upTo` has a column for exactly the days 1..upTo. */
  lemma {:induction false} LoadedRowKeys(e: Employee, store: Store, mes: int, ano: int, upTo: int)
    ensures LoadedRow(e, store, mes, ano, upTo).cells.Keys == set d | 1 <= d <= upTo :: Header(d, mes, ano)
    decreases upTo
  {
    if upTo > 0 {
      LoadedRowKeys(e, store, mes, ano, upTo - 1);
      var earlier := set d | 1 <= d <= upTo - 1 :: Header(d, mes, ano);
      var all := set d | 1 <= d <= upTo :: Header(d, mes, ano);
      forall col | col in all
        ensures col in earlier + {Header(upTo, mes, ano)}
      {
        var d :| 1 <= d <= upTo && col == Header(d, mes, ano);
        if d < upTo {
          assert col in earlier;
        }
      }
      assert all == earlier + {Header(upTo, mes, ano)};
    } else {
      assert (set d | 1 <= d <= upTo :: Header(d, mes, ano)) == {};
    }
  }

  /** The cell of day `d` in a row loaded up to `upTo`: the code shown for that
      day when 1 <= d <= upTo, NaN otherwise. */
  lemma {:induction false} LoadedRowCell(e: Employee, store: Store, mes: int, ano: int, upTo: int, d: int)
    ensures CellAt(LoadedRow(e, store, mes, ano, upTo), Header(d, mes, ano))
         == if 1 <= d <= upTo then Text(ShownCode(store, SlotKey(e.id, mes, ano, d))) else Missing
    decreases upTo
  {
    if upTo > 0 {
      LoadedRowCell(e, store, mes, ano, upTo - 1, d);
      if d != upTo {
        HeadersDiffer(d, upTo, mes, ano);
      }
    }
  }

  /** Rows loaded from two stores that show the same codes for days 1..upTo are equal. */
  lemma {:induction false} LoadedRowSameShown(e: Employee, s1: Store, s2: Store, mes: int, ano: int, upTo: int)
    requires forall d :: 1 <= d <= upTo ==>
               ShownCode(s1, SlotKey(e.id, mes, ano, d)) == ShownCode(s2, SlotKey(e.id, mes, ano, d))
    ensures LoadedRow(e, s1, mes, ano, upTo) == LoadedRow(e, s2, mes, ano, upTo)
    decreases upTo
  {
    if upTo > 0 {
      LoadedRowSameShown(e, s1, s2, mes, ano, upTo - 1);
    }
  }

  /** The grid of a month: nothing at all when there are no employees; otherwise
      one row per employee in the given order and one column per day. */
  function LoadedGrid(emps: seq<Employee>, store: Store, mes: int, ano: int): Grid {
    if |emps| == 0 then Grid([], [])
    else
      var n := DaysInMonth(mes, ano);
      Grid(DayHeaders(n, mes, ano),
           seq(|emps|, i requires 0 <= i < |emps| => LoadedRow(emps[i], store, mes, ano, n)))
  }

  /** `turnos_dict`: the code shown for each (employee, day) stored in this month
      for a listed employee; day 0 is skipped, as `if dia:` does. */
  method CollectMonth(emps: seq<Employee>, store: Store, mes: int, ano: int)
    returns (turnos: map<(int, int), string>)
    ensures forall id, d :: (id, d) in turnos <==>
              SlotKey(id, mes, ano, d) in store && d != 0 && id in EmployeeIds(emps)
    ensures forall id, d :: (id, d) in turnos ==>
              turnos[(id, d)] == CodeText(store[SlotKey(id, mes, ano, d)])
  {
    var ids := EmployeeIds(emps);
    var pending := set k | k in store && k.mes == mes && k.ano == ano && k.empleadoId in ids;
    turnos := map[];
    while pending != {}
      invariant forall k :: k in pending ==> k in store && k.mes == mes && k.ano == ano && k.empleadoId in ids
      invariant forall id, d :: (id, d) in turnos <==>
                  SlotKey(id, mes, ano, d) in store && SlotKey(id, mes, ano, d) !in pending && d != 0 && id in ids
      invariant forall id, d :: (id, d) in turnos ==>
                  turnos[(id, d)] == CodeText(store[SlotKey(id, mes, ano, d)])
      decreases pending
    {
      var k :| k in pending;
      if k.dia != 0 {
        turnos := turnos[(k.empleadoId, k.dia) := CodeText(store[k])];
      }
      pending := pending - {k};
    }
  }

  /** One pass of the day loop: every row gets the cell of day `dia`, the code
      collected for its employee or "". */
  method AddDayColumn(rows: seq<GridRow>, emps: seq<Employee>, store: Store, turnos: map<(int, int), string>,
                      mes: int, ano: int, dia: int) returns (next: seq<GridRow>)
    requires dia >= 1 && |rows| == |emps|
    requires forall i :: 0 <= i < |rows| ==> rows[i] == LoadedRow(emps[i], store, mes, ano, dia - 1)
    requires forall i :: 0 <= i < |emps| ==>
               ((emps[i].id, dia) in turnos <==> SlotKey(emps[i].id, mes, ano, dia) in store)
    requires forall i :: 0 <= i < |emps| && (emps[i].id, dia) in turnos ==>
               turnos[(emps[i].id, dia)] == CodeText(store[SlotKey(emps[i].id, mes, ano, dia)])
    ensures |next| == |emps|
    ensures forall i :: 0 <= i < |next| ==> next[i] == LoadedRow(emps[i], store, mes, ano, dia)
  {
    var col := Header(dia, mes, ano);
    next := rows;
    var i := 0;
    while i < |next|
      invariant 0 <= i <= |next| == |emps|
      invariant forall j :: 0 <= j < i ==> next[j] == LoadedRow(emps[j], store, mes, ano, dia)
      invariant forall j :: i <= j < |next| ==> next[j] == LoadedRow(emps[j], store, mes, ano, dia - 1)
    {
      var value := "";
      if (emps[i].id, dia) in turnos {
        value := turnos[(emps[i].id, dia)];
      }
      next := next[i := next[i].(cells := next[i].cells[col := Text(value)])];
      i := i + 1;
    }
  }

  /** get_malla_turnos: collects the month's codes, adds the day columns one by
      one and fills each row's cell from them. */
  method LoadGrid(emps: seq<Employee>, store: Store, mes: int, ano: int) returns (grid: Grid)
    ensures grid == LoadedGrid(emps, store, mes, ano)
  {
    if |emps| == 0 {
      return Grid([], []);
    }
    var n := DaysInMonth(mes, ano);
    var turnos := CollectMonth(emps, store, mes, ano);
    var rows := seq(|emps|, i requires 0 <= i < |emps| => AttributeRow(emps[i]));
    var columns: seq<string> := [];
    var dia := 1;
    while dia <= n
      invariant 1 <= dia <= n + 1
      invariant columns == DayHeaders(dia - 1, mes, ano)
      invariant |rows| == |emps|
      invariant forall i :: 0 <= i < |rows| ==> rows[i] == LoadedRow(emps[i], store, mes, ano, dia - 1)
    {
      assert forall i :: 0 <= i < |emps| ==> emps[i].id in EmployeeIds(emps);
      rows := AddDayColumn(rows, emps, store, turnos, mes, ano, dia);
      DayHeadersGrow(dia - 1, mes, ano);
      columns := columns + [Header(dia, mes, ano)];
      dia := dia + 1;
    }
    assert rows == seq(|emps|, i requires 0 <= i < |emps| => LoadedRow(emps[i], store, mes, ano, n));
    grid := Grid(columns, rows);
  }

  /** The loaded grid is empty without employees; otherwise it has one row per
      employee, in the order of the employee list, each showing that employee,
      and exactly one cell per day 1..n, holding the stored code or "". */
  lemma LoadedGridShape(emps: seq<Employee>, store: Store, mes: int, ano: int)
    ensures |emps| == 0 ==> LoadedGrid(emps, store, mes, ano) == Grid([], [])
    ensures var g := LoadedGrid(emps, store, mes, ano);
            var n := DaysInMonth(mes, ano);
            |emps| > 0 ==>
              && g.columns == DayHeaders(n, mes, ano)
              && |g.rows| == |emps|
              && (forall i :: 0 <= i < |emps| ==> ShowsEmployee(g.rows[i], emps[i]))
              && (forall i :: 0 <= i < |emps| ==>
                    g.rows[i].cells.Keys == set d | 1 <= d <= n :: Header(d, mes, ano))
              && (forall i, d :: 0 <= i < |emps| && 1 <= d <= n ==>
                    CellAt(g.rows[i], Header(d, mes, ano))
                    == Text(ShownCode(store, SlotKey(emps[i].id, mes, ano, d))))
  {
    if |emps| > 0 {
      var g := LoadedGrid(emps, store, mes, ano);
      var n := DaysInMonth(mes, ano);
      forall i | 0 <= i < |emps|
        ensures ShowsEmployee(g.rows[i], emps[i])
        ensures g.rows[i].cells.Keys == set d | 1 <= d <= n :: Header(d, mes, ano)
      {
        LoadedRowShows(emps[i], store, mes, ano, n);
        LoadedRowKeys(emps[i], store, mes, ano, n);
      }
      forall i, d | 0 <= i < |emps| && 1 <= d <= n
        ensures CellAt(g.rows[i], Header(d, mes, ano)) == Text(ShownCode(store, SlotKey(emps[i].id, mes, ano, d)))
      {
        LoadedRowCell(emps[i], store, mes, ano, n, d);
      }
    }
  }

  /** Rows come out in the order of the employee list, which is ordered by `numero`. */
  lemma LoadedGridKeepsNumeroOrder(emps: seq<Employee>, store: Store, mes: int, ano: int)
    requires forall i, j :: 0 <= i < j < |emps| ==> emps[i].numero <= emps[j].numero
    ensures var rows := LoadedGrid(emps, store, mes, ano).rows;
            forall i, j :: 0 <= i < j < |rows| ==> rows[i].numero <= rows[j].numero
  {
    var n := DaysInMonth(mes, ano);
    forall i | 0 <= i < |emps|
      ensures LoadedRow(emps[i], store, mes, ano, n).numero == emps[i].numero
    {
      LoadedRowShows(emps[i], store, mes, ano, n);
    }
  }

  // ---------------------------------------------------------------------
  // Saving the grid (guardar_malla_turnos).
  // ---------------------------------------------------------------------

  /** The code stored for a cell: NaN and "" become NULL, any other text is stripped. */
  function SavedCode(c: Cell): Option<string> {
    match c
    case Missing => None
    case Text(s) => if s == "" then None else Some(Strip(s))
  }

  /** The upserts of one grid row for employee `id`, days 1..upTo in order: one
      per day whose column the grid has. */
  function RowWrites(id: int, row: GridRow, columns: seq<string>, mes: int, ano: int, upTo: int): Store
    decreases upTo
  {
    if upTo <= 0 then map[]
    else
      var before := RowWrites(id, row, columns, mes, ano, upTo - 1);
      var col := Header(upTo, mes, ano);
      if col in columns then before[SlotKey(id, mes, ano, upTo) := SavedCode(CellAt(row, col))] else before
  }

  /** A row writes exactly the keys of its employee, this month and a day
      1..upTo whose column the grid has, each with that column's saved code. */
  lemma {:induction false} RowWritesAt(id: int, row: GridRow, columns: seq<string>, mes: int, ano: int,
                                       upTo: int, k: SlotKey)
    ensures k in RowWrites(id, row, columns, mes, ano, upTo) <==>
              k.empleadoId == id && k.mes == mes && k.ano == ano && 1 <= k.dia <= upTo
              && Header(k.dia, mes, ano) in columns
    ensures k in RowWrites(id, row, columns, mes, ano, upTo) ==>
              RowWrites(id, row, columns, mes, ano, upTo)[k] == SavedCode(CellAt(row, Header(k.dia, mes, ano)))
    decreases upTo
  {
    if upTo > 0 {
      RowWritesAt(id, row, columns, mes, ano, upTo - 1, k);
    }
  }

  /** The store after the upserts of `rows`, in order; a row whose CC is not a
      known cédula writes nothing. */
  function SaveRows(store: Store, index: map<string, int>, rows: seq<GridRow>,
                    columns: seq<string>, mes: int, ano: int, n: int): Store
    decreases |rows|
  {
    if rows == [] then store
    else
      var before := SaveRows(store, index, rows[..|rows| - 1], columns, mes, ano, n);
      var row := rows[|rows| - 1];
      if row.cc in index then before + RowWrites(index[row.cc], row, columns, mes, ano, n) else before
  }

  /** The store after saving `grid` for this month. */
  function Saved(store: Store, emps: seq<Employee>, grid: Grid, mes: int, ano: int): Store {
    SaveRows(store, IdByCedula(emps), grid.rows, grid.columns, mes, ano, DaysInMonth(mes, ano))
  }

  /** The writes a save makes, independently of what was stored before. */
  function Writes(emps: seq<Employee>, grid: Grid, mes: int, ano: int): Store {
    Saved(map[], emps, grid, mes, ano)
  }

  /** guardar_malla_turnos: for each row with a known cédula and each day whose
      column the grid has, INSERT OR REPLACE the (stripped or NULL) code. */
  method SaveGrid(store: Store, emps: seq<Employee>, grid: Grid, mes: int, ano: int) returns (result: Store)
    ensures result == Saved(store, emps, grid, mes, ano)
  {
    var index := IdByCedula(emps);
    var n := DaysInMonth(mes, ano);
    result := store;
    var r := 0;
    while r < |grid.rows|
      invariant 0 <= r <= |grid.rows|
      invariant result == SaveRows(store, index, grid.rows[..r], grid.columns, mes, ano, n)
    {
      var row := grid.rows[r];
      SaveRowsStep(store, index, grid.rows, grid.columns, mes, ano, n, r);
      if row.cc in index {
        result := WriteRow(result, index[row.cc], row, grid.columns, mes, ano, n);
      }
      r := r + 1;
    }
    assert grid.rows[..|grid.rows|] == grid.rows;
  }

  /** The inner loop of guardar_malla_turnos over days 1..n of one row with a
      known cédula: the row's upserts made on `current`. */
  method WriteRow(current: Store, id: int, row: GridRow, columns: seq<string>, mes: int, ano: int, n: nat)
    returns (result: Store)
    ensures result == current + RowWrites(id, row, columns, mes, ano, n)
  {
    result := current;
    var dia := 1;
    while dia <= n
      invariant 1 <= dia <= n + 1
      invariant result == current + RowWrites(id, row, columns, mes, ano, dia - 1)
    {
      var col := Header(dia, mes, ano);
      if col in columns {
        result := result[SlotKey(id, mes, ano, dia) := SavedCode(CellAt(row, col))];
      }
      dia := dia + 1;
    }
  }

  /** One more grid row adds its upserts when its CC is a known cédula. */
  lemma SaveRowsStep(store: Store, index: map<string, int>, rows: seq<GridRow>, columns: seq<string>,
                     mes: int, ano: int, n: int, r: int)
    requires 0 <= r < |rows|
    ensures SaveRows(store, index, rows[..r + 1], columns, mes, ano, n)
         == if rows[r].cc in index
            then SaveRows(store, index, rows[..r], columns, mes, ano, n) + RowWrites(index[rows[r].cc], rows[r], columns, mes, ano, n)
            else SaveRows(store, index, rows[..r], columns, mes, ano, n)
  {
    assert rows[..r + 1][..r] == rows[..r];
  }

  /** Saving overlays the same writes on whatever was stored before. */
  lemma {:induction false} SaveRowsOverlay(store: Store, index: map<string, int>, rows: seq<GridRow>,
                                           columns: seq<string>, mes: int, ano: int, n: int)
    ensures SaveRows(store, index, rows, columns, mes, ano, n)
         == store + SaveRows(map[], index, rows, columns, mes, ano, n)
    decreases |rows|
  {
    if rows != [] {
      SaveRowsOverlay(store, index, rows[..|rows| - 1], columns, mes, ano, n);
      var row := rows[|rows| - 1];
      if row.cc in index {
        var w := SaveRows(map[], index, rows[..|rows| - 1], columns, mes, ano, n);
        var rw := RowWrites(index[row.cc], row, columns, mes, ano, n);
        assert (store + w) + rw == store + (w + rw);
      }
    }
  }

  /** A save is the old store overlaid with the save's writes. */
  lemma SavedIsOverlay(store: Store, emps: seq<Employee>, grid: Grid, mes: int, ano: int)
    ensures Saved(store, emps, grid, mes, ano) == store + Writes(emps, grid, mes, ano)
  {
    SaveRowsOverlay(store, IdByCedula(emps), grid.rows, grid.columns, mes, ano, DaysInMonth(mes, ano));
  }

  /** Saving the same grid twice leaves the same store as saving it once. */
  lemma SaveIdempotent(store: Store, emps: seq<Employee>, grid: Grid, mes: int, ano: int)
    ensures Saved(Saved(store, emps, grid, mes, ano), emps, grid, mes, ano) == Saved(store, emps, grid, mes, ano)
  {
    var once := Saved(store, emps, grid, mes, ano);
    SavedIsOverlay(store, emps, grid, mes, ano);
    SavedIsOverlay(once, emps, grid, mes, ano);
    var w := Writes(emps, grid, mes, ano);
    assert (store + w) + w == store + w;
  }

  /** Every write is for this month, a day 1..n whose column the grid has, and
      the id of a row whose CC is a known cédula; the code written is NULL or
      stripped text. */
  lemma {:induction false} SaveRowsWrites(index: map<string, int>, rows: seq<GridRow>,
                                          columns: seq<string>, mes: int, ano: int, n: int, k: SlotKey)
    requires k in SaveRows(map[], index, rows, columns, mes, ano, n)
    ensures k.mes == mes && k.ano == ano && 1 <= k.dia <= n && Header(k.dia, mes, ano) in columns
    ensures exists j :: 0 <= j < |rows| && rows[j].cc in index && index[rows[j].cc] == k.empleadoId
    ensures var code := SaveRows(map[], index, rows, columns, mes, ano, n)[k];
            code.None? || Strip(code.value) == code.value
    decreases |rows|
  {
    var front := rows[..|rows| - 1];
    var row := rows[|rows| - 1];
    var before := SaveRows(map[], index, front, columns, mes, ano, n);
    if row.cc in index && k in RowWrites(index[row.cc], row, columns, mes, ano, n) {
      RowWritesAt(index[row.cc], row, columns, mes, ano, n, k);
      var cell := CellAt(row, Header(k.dia, mes, ano));
      if cell.Text? {
        StripIdempotent(cell.s);
      }
    } else {
      SaveRowsWrites(index, front, columns, mes, ano, n, k);
      var j :| 0 <= j < |front| && front[j].cc in index && index[front[j].cc] == k.empleadoId;
      assert rows[j] == front[j];
    }
  }

  /** A save changes only this month's days 1..n of employees whose cédula
      some grid row carries; every other entry is kept as it was. */
  lemma SaveFrame(store: Store, emps: seq<Employee>, grid: Grid, mes: int, ano: int, k: SlotKey)
    requires k.mes != mes || k.ano != ano || k.dia < 1 || k.dia > DaysInMonth(mes, ano)
          || forall j :: 0 <= j < |grid.rows| ==>
               !exists i :: 0 <= i < |emps| && emps[i].cedula == grid.rows[j].cc && emps[i].id == k.empleadoId
    ensures k in Saved(store, emps, grid, mes, ano) <==> k in store
    ensures k in store ==> Saved(store, emps, grid, mes, ano)[k] == store[k]
  {
    SavedIsOverlay(store, emps, grid, mes, ano);
    var index := IdByCedula(emps);
    if k in Writes(emps, grid, mes, ano) {
      SaveRowsWrites(index, grid.rows, grid.columns, mes, ano, DaysInMonth(mes, ano), k);
      var j :| 0 <= j < |grid.rows| && grid.rows[j].cc in index && index[grid.rows[j].cc] == k.empleadoId;
      IdByCedulaFinds(emps);
      assert false;
    }
  }

  /** Every code a save writes is NULL or stripped text. */
  lemma SaveNormalisesCodes(store: Store, emps: seq<Employee>, grid: Grid, mes: int, ano: int, k: SlotKey)
    requires k in Saved(store, emps, grid, mes, ano)
    requires k !in store || Saved(store, emps, grid, mes, ano)[k] != store[k]
    ensures var code := Saved(store, emps, grid, mes, ano)[k];
            code.None? || Strip(code.value) == code.value
  {
    SavedIsOverlay(store, emps, grid, mes, ano);
    SaveRowsWrites(IdByCedula(emps), grid.rows, grid.columns, mes, ano, DaysInMonth(mes, ano), k);
  }

  /** The entry of a day holds the code of the last row that writes it. */
  lemma {:induction false} SaveRowsLastRowWins(store: Store, index: map<string, int>, rows: seq<GridRow>,
                                               columns: seq<string>, mes: int, ano: int, n: int, j: int, d: int)
    requires 0 <= j < |rows| && rows[j].cc in index
    requires forall j' :: j < j' < |rows| && rows[j'].cc in index ==> index[rows[j'].cc] != index[rows[j].cc]
    requires 1 <= d <= n && Header(d, mes, ano) in columns
    ensures var k := SlotKey(index[rows[j].cc], mes, ano, d);
            && k in SaveRows(store, index, rows, columns, mes, ano, n)
            && SaveRows(store, index, rows, columns, mes, ano, n)[k] == SavedCode(CellAt(rows[j], Header(d, mes, ano)))
    decreases |rows|
  {
    var k := SlotKey(index[rows[j].cc], mes, ano, d);
    var last := rows[|rows| - 1];
    if last.cc in index {
      RowWritesAt(index[last.cc], last, columns, mes, ano, n, k);
    }
    if j < |rows| - 1 {
      SaveRowsLastRowWins(store, index, rows[..|rows| - 1], columns, mes, ano, n, j, d);
    }
  }

  /** A blank or NaN cell of a known employee's row is stored as NULL (the entry
      is kept, not deleted); any other cell is stored as its stripped text. */
  lemma SaveCell(store: Store, emps: seq<Employee>, grid: Grid, mes: int, ano: int, j: int, d: int)
    requires 0 <= j < |grid.rows| && grid.rows[j].cc in IdByCedula(emps)
    requires forall j' :: j < j' < |grid.rows| ==> grid.rows[j'].cc != grid.rows[j].cc
    requires UniqueCedulas(emps) && UniqueIds(emps)
    requires 1 <= d <= DaysInMonth(mes, ano) && Header(d, mes, ano) in grid.columns
    ensures var k := SlotKey(IdByCedula(emps)[grid.rows[j].cc], mes, ano, d);
            var cell := CellAt(grid.rows[j], Header(d, mes, ano));
            var saved := Saved(store, emps, grid, mes, ano);
            && k in saved
            && (saved[k].None? <==> cell == Missing || cell == Text(""))
            && (saved[k].Some? ==> saved[k].value == Strip(cell.s))
  {
    var index := IdByCedula(emps);
    IdByCedulaFinds(emps);
    forall j' | j < j' < |grid.rows| && grid.rows[j'].cc in index
      ensures index[grid.rows[j'].cc] != index[grid.rows[j].cc]
    {
      var a :| 0 <= a < |emps| && emps[a].cedula == grid.rows[j].cc;
      var b :| 0 <= b < |emps| && emps[b].cedula == grid.rows[j'].cc;
      assert a != b;
    }
    SaveRowsLastRowWins(store, index, grid.rows, grid.columns, mes, ano, DaysInMonth(mes, ano), j, d);
  }

  /** After a save, get_turnos_empleado_mes for the employee of row `j` holds,
      for every day 1..n whose column the grid has, the code saved from that
      row's cell. */
  lemma MonthAfterSave(store: Store, emps: seq<Employee>, grid: Grid, mes: int, ano: int, j: int)
    requires 0 <= j < |grid.rows| && grid.rows[j].cc in IdByCedula(emps)
    requires forall j' :: j < j' < |grid.rows| ==> grid.rows[j'].cc != grid.rows[j].cc
    requires UniqueCedulas(emps) && UniqueIds(emps)
    ensures var days := EmployeeMonth(Saved(store, emps, grid, mes, ano), IdByCedula(emps)[grid.rows[j].cc], mes, ano);
            forall d :: 1 <= d <= DaysInMonth(mes, ano) && Header(d, mes, ano) in grid.columns ==>
              d in days && days[d] == SavedCode(CellAt(grid.rows[j], Header(d, mes, ano)))
  {
    forall d | 1 <= d <= DaysInMonth(mes, ano) && Header(d, mes, ano) in grid.columns {
      SaveCell(store, emps, grid, mes, ano, j, d);
    }
  }

  /** When row j carries employee j's cédula and the employee keys are
      unique, the cédula of row `i` finds employee `i`'s id and no later row
      finds the same id. */
  lemma RowsFindOwnIds(emps: seq<Employee>, rows: seq<GridRow>, i: int)
    requires UniqueCedulas(emps) && UniqueIds(emps)
    requires |rows| == |emps| && forall j :: 0 <= j < |rows| ==> rows[j].cc == emps[j].cedula
    requires 0 <= i < |emps|
    ensures var index := IdByCedula(emps);
            && rows[i].cc in index && index[rows[i].cc] == emps[i].id
            && forall j :: i < j < |rows| && rows[j].cc in index ==> index[rows[j].cc] != index[rows[i].cc]
  {
    IdByCedulaFinds(emps);
  }

  /** Saving a grid whose row j carries employee j's cédula writes, for day
      `d` of employee `i`, the saved code of that row's cell. */
  lemma SavedEntryOfRow(store: Store, emps: seq<Employee>, grid: Grid, mes: int, ano: int, i: int, d: int)
    requires UniqueCedulas(emps) && UniqueIds(emps)
    requires |grid.rows| == |emps| && forall j :: 0 <= j < |grid.rows| ==> grid.rows[j].cc == emps[j].cedula
    requires 0 <= i < |emps| && 1 <= d <= DaysInMonth(mes, ano) && Header(d, mes, ano) in grid.columns
    ensures var k := SlotKey(emps[i].id, mes, ano, d);
            var saved := Saved(store, emps, grid, mes, ano);
            k in saved && saved[k] == SavedCode(CellAt(grid.rows[i], Header(d, mes, ano)))
  {
    RowsFindOwnIds(emps, grid.rows, i);
    SaveRowsLastRowWins(store, IdByCedula(emps), grid.rows, grid.columns, mes, ano, DaysInMonth(mes, ano), i, d);
  }

  /** Row j of a loaded grid carries employee j's cédula. */
  lemma LoadedRowsCarryCedulas(emps: seq<Employee>, store: Store, mes: int, ano: int)
    ensures var rows := LoadedGrid(emps, store, mes, ano).rows;
            |rows| == |emps| && forall j :: 0 <= j < |rows| ==> rows[j].cc == emps[j].cedula
  {
    var n := DaysInMonth(mes, ano);
    forall j | 0 <= j < |emps|
      ensures LoadedRow(emps[j], store, mes, ano, n).cc == emps[j].cedula
    {
      LoadedRowShows(emps[j], store, mes, ano, n);
    }
  }

  /** Saving the text a stripped stored code is shown as writes a code shown the same way. */
  lemma SavedShownCode(store: Store, k: SlotKey)
    requires k in store && store[k].Some? ==> Strip(store[k].value) == store[k].value
    ensures CodeText(SavedCode(Text(ShownCode(store, k)))) == ShownCode(store, k)
  {
    var shown := ShownCode(store, k);
    if shown != "" {
      assert k in store && store[k] == Some(shown);
      assert SavedCode(Text(shown)) == Some(Strip(shown));
    }
  }

  /** Saving the loaded grid unchanged writes, for day `d` of the `i`-th
      employee, the code the grid shows for that day. */
  lemma SavedLoadedEntry(emps: seq<Employee>, store: Store, mes: int, ano: int, i: int, d: int)
    requires UniqueCedulas(emps) && UniqueIds(emps)
    requires 0 <= i < |emps| && 1 <= d <= DaysInMonth(mes, ano)
    ensures var k := SlotKey(emps[i].id, mes, ano, d);
            var saved := Saved(store, emps, LoadedGrid(emps, store, mes, ano), mes, ano);
            k in saved && saved[k] == SavedCode(Text(ShownCode(store, k)))
  {
    var n := DaysInMonth(mes, ano);
    var grid := LoadedGrid(emps, store, mes, ano);
    LoadedRowsCarryCedulas(emps, store, mes, ano);
    assert Header(d, mes, ano) == grid.columns[d - 1];
    SavedEntryOfRow(store, emps, grid, mes, ano, i, d);
    LoadedRowCell(emps[i], store, mes, ano, n, d);
  }

  /** Saving the loaded grid unchanged keeps the code shown for day `d` of
      the `i`-th employee. */
  lemma SavedLoadedCell(emps: seq<Employee>, store: Store, mes: int, ano: int, i: int, d: int)
    requires UniqueCedulas(emps) && UniqueIds(emps)
    requires forall k :: k in store && store[k].Some? ==> Strip(store[k].value) == store[k].value
    requires 0 <= i < |emps| && 1 <= d <= DaysInMonth(mes, ano)
    ensures var k := SlotKey(emps[i].id, mes, ano, d);
            var grid := LoadedGrid(emps, store, mes, ano);
            ShownCode(Saved(store, emps, grid, mes, ano), k) == ShownCode(store, k)
  {
    SavedLoadedEntry(emps, store, mes, ano, i, d);
    SavedShownCode(store, SlotKey(emps[i].id, mes, ano, d));
  }

  /** Loading a month, saving the loaded grid unchanged and loading again shows
      the same grid, provided the stored codes are NULL or stripped text (as
      every save writes them) and the employee table keeps its keys unique. */
  lemma LoadSaveRoundTrip(emps: seq<Employee>, store: Store, mes: int, ano: int)
    requires UniqueCedulas(emps) && UniqueIds(emps)
    requires forall k :: k in store && store[k].Some? ==> Strip(store[k].value) == store[k].value
    ensures var grid := LoadedGrid(emps, store, mes, ano);
            LoadedGrid(emps, Saved(store, emps, grid, mes, ano), mes, ano) == grid
  {
    var grid := LoadedGrid(emps, store, mes, ano);
    var saved := Saved(store, emps, grid, mes, ano);
    if |emps| > 0 {
      var n := DaysInMonth(mes, ano);
      forall i | 0 <= i < |emps|
        ensures LoadedRow(emps[i], saved, mes, ano, n) == LoadedRow(emps[i], store, mes, ano, n)
      {
        forall d | 1 <= d <= n
          ensures ShownCode(saved, SlotKey(emps[i].id, mes, ano, d)) == ShownCode(store, SlotKey(emps[i].id, mes, ano, d))
        {
          SavedLoadedCell(emps, store, mes, ano, i, d);
        }
        LoadedRowSameShown(emps[i], saved, store, mes, ano, n);
      }
      assert LoadedGrid(emps, saved, mes, ano).rows == grid.rows;
    }
  }

  // ---------------------------------------------------------------------
  // Shift-code registry (get_codigos_turno).
  // ---------------------------------------------------------------------

  /** What the registry shows for the empty code. */
  const Unassigned := ShiftInfo("Sin Asignar", "#FFFFFF", 0)

  /** get_codigos_turno: the "" entry ("Sin Asignar", white, 0 hours) plus one
      entry per stored code, a later row for a code overwriting an earlier one. */
  method ShiftCodes(rows: seq<ShiftCodeRow>) returns (registry: map<string, ShiftInfo>)
    ensures registry.Keys == {""} + (set i | 0 <= i < |rows| :: rows[i].codigo)
    ensures forall i :: 0 <= i < |rows| && (forall j :: i < j < |rows| ==> rows[j].codigo != rows[i].codigo)
              ==> registry[rows[i].codigo] == InfoOf(rows[i])
    ensures (forall j :: 0 <= j < |rows| ==> rows[j].codigo != "") ==> registry[""] == Unassigned
  {
    registry := RegisterCodes(map["" := Unassigned], rows);
    RegisteredCodes(map["" := Unassigned], rows);
  }

  // ---------------------------------------------------------------------
  // Configuration (get_configuracion).
  // ---------------------------------------------------------------------

  /** The configuration returned before any stored row is applied. */
  const DefaultConfiguration: map<string, ConfigValue> := map[
    "formato_hora" := Raw(Some("24 horas")),
    "dias_vacaciones" := Number(15),
    "inicio_semana" := Raw(Some("Lunes")),
    "departamentos" := Items(["Administración", "Tienda", "Droguería", "Cajas",
                              "Domicilios", "Control Interno", "Equipos Médicos"]),
    "auto_save" := Flag(true)]

  /** One stored row decoded by its type: "number" through `int` (None where
      it raises), "boolean" as `valor == "1"`, the key "departamentos" (of any
      other type) split at commas, and everything else kept as stored. */
  function DecodeSetting(row: ConfigRow): Option<ConfigValue> {
    if row.tipo == Some("number") then
      (if row.valor.None? then None
       else match ParseInt(row.valor.value)
            case Some(n) => Some(Number(n))
            case None => None)
    else if row.tipo == Some("boolean") then Some(Flag(row.valor == Some("1")))
    else if row.clave == "departamentos" then
      (if row.valor.None? then None else Some(Items(Split(row.valor.value, ','))))
    else Some(Raw(row.valor))
  }

  /** get_configuracion: the defaults overwritten by the decoded stored rows, in
      order; None when some row's value cannot be decoded. */
  method Configuration(rows: seq<ConfigRow>) returns (config: Option<map<string, ConfigValue>>)
    ensures config.None? <==> exists i :: 0 <= i < |rows| && DecodeSetting(rows[i]).None?
    ensures config.Some? ==> config.value.Keys == DefaultConfiguration.Keys + (set i | 0 <= i < |rows| :: rows[i].clave)
    ensures config.Some? ==>
              forall i :: 0 <= i < |rows| && (forall j :: i < j < |rows| ==> rows[j].clave != rows[i].clave)
                ==> config.value[rows[i].clave] == DecodeSetting(rows[i]).value
    ensures config.Some? ==>
              forall k :: k in DefaultConfiguration && (forall j :: 0 <= j < |rows| ==> rows[j].clave != k)
                ==> config.value[k] == DefaultConfiguration[k]
  {
    config := DecodeConfiguration(DefaultConfiguration, rows, DecodeSetting);
    if config.Some? {
      DecodedConfiguration(DefaultConfiguration, rows, DecodeSetting);
    }
  }

  /** The departments list is the stored text cut at every comma: joining the
      items with commas gives the stored text back, empty items included. */
  lemma DepartmentsSplitAtCommas(row: ConfigRow)
    requires row.clave == "departamentos" && row.valor.Some?
    requires row.tipo != Some("number") && row.tipo != Some("boolean")
    ensures DecodeSetting(row).Some? && DecodeSetting(row).value.Items?
    ensures var items := DecodeSetting(row).value.items;
            |items| >= 1 && Join(items, ',') == row.valor.value
            && forall i :: 0 <= i < |items| ==> ',' !in items[i]
  {
    SplitThenJoin(row.valor.value, ',');
  }
}
