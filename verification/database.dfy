/** The database layer of the packaged application (database.py): its own
    days-in-month rule, loading and saving the month's wide grid, the shift-code
    registry, the typed configuration and user authentication. Where it differs
    from the single-file application (malla.py) the differences are stated as
    lemmas. */
module Database {
  import opened Wrappers
  import opened Strings
  import opened Roster
  import Malla
  import Access

  // ---------------------------------------------------------------------
  // Days in month.
  // ---------------------------------------------------------------------

  /** The number of day columns of a month: 31, lowered to 30 for April, June,
      September and November, and to 28 for February of every year. */
  function DbDaysInMonth(mes: int, ano: int): (n: int)
    ensures n == 28 || n == 30 || n == 31
    ensures n == 28 <==> mes == 2
    ensures n == 30 <==> mes == 4 || mes == 6 || mes == 9 || mes == 11
  {
    var dias := if mes == 4 || mes == 6 || mes == 9 || mes == 11 then 30 else 31;
    if mes == 2 then 28 else dias
  }

  /** The rule agrees with the calendar except in February of a leap year, which
      loses its 29th day. */
  lemma DbDaysInMonthVersusCalendar(mes: int, ano: int)
    requires 1 <= mes <= 12
    ensures DbDaysInMonth(mes, ano) == CalendarDays(mes, ano) <==> !(mes == 2 && IsLeapYear(ano))
    ensures mes == 2 && IsLeapYear(ano) ==> DbDaysInMonth(mes, ano) == CalendarDays(mes, ano) - 1
  {
  }

  /** The two applications give a month the same number of days except in
      February of any year but 2026, where malla.py gives 31 and database.py 28. */
  lemma DayRulesCompared(mes: int, ano: int)
    ensures Malla.DaysInMonth(mes, ano) == DbDaysInMonth(mes, ano) <==> mes != 2 || ano == 2026
    ensures mes == 2 && ano != 2026 ==> Malla.DaysInMonth(mes, ano) == 31 && DbDaysInMonth(mes, ano) == 28
  {
  }

  // ---------------------------------------------------------------------
  // Loading the grid (get_malla_turnos).
  // ---------------------------------------------------------------------

  /** The cell the loaded grid shows for day `d` of employee `id`: the stored
      code ("" for NULL) when a row is stored, "" for a day 1..dias without a
      row, and NaN for a day outside 1..dias without a row. */
  function DbCell(store: Store, id: int, mes: int, ano: int, dias: int, d: int): Cell {
    var k := SlotKey(id, mes, ano, d);
    if k in store then Text(CodeText(store[k]))
    else if 1 <= d <= dias then Text("")
    else Missing
  }

  /** The blank grid: one row per employee and the day columns 1..dias, every
      cell "". A blank row is the row malla.py loads from an empty table. */
  method BlankGrid(emps: seq<Employee>, mes: int, ano: int, dias: nat)
    returns (columns: seq<string>, rows: seq<GridRow>)
    ensures columns == DayHeaders(dias, mes, ano)
    ensures |rows| == |emps|
    ensures forall i :: 0 <= i < |rows| ==> rows[i] == Malla.LoadedRow(emps[i], map[], mes, ano, dias)
  {
    columns := [];
    rows := seq(|emps|, i requires 0 <= i < |emps| => AttributeRow(emps[i]));
    for d := 1 to dias + 1
      invariant columns == DayHeaders(d - 1, mes, ano)
      invariant |rows| == |emps|
      invariant forall i :: 0 <= i < |rows| ==> rows[i] == Malla.LoadedRow(emps[i], map[], mes, ano, d - 1)
    {
      var col := Header(d, mes, ano);
      DayHeadersGrow(d - 1, mes, ano);
      columns := columns + [col];
      rows := seq(|rows|, i requires 0 <= i < |rows| => rows[i].(cells := rows[i].cells[col := Text("")]));
    }
  }

  /** `base.loc[base["id"] == id, col] = value`: the rows of employee `id` get
      `value` in column `col`; the other rows are left as they were. */
  method SetCells(rows: seq<GridRow>, emps: seq<Employee>, id: int, col: string, value: Cell)
    returns (next: seq<GridRow>)
    requires |rows| == |emps|
    ensures |next| == |rows|
    ensures forall i :: 0 <= i < |next| ==>
              next[i] == if emps[i].id == id then rows[i].(cells := rows[i].cells[col := value]) else rows[i]
  {
    next := rows;
    for i := 0 to |rows|
      invariant |next| == |rows|
      invariant forall j :: 0 <= j < i ==>
                  next[j] == if emps[j].id == id then rows[j].(cells := rows[j].cells[col := value]) else rows[j]
      invariant forall j :: i <= j < |next| ==> next[j] == rows[j]
    {
      if emps[i].id == id {
        next := next[i := next[i].(cells := next[i].cells[col := value])];
      }
    }
  }

  /** The state of the fill loop once every stored row of the month outside
      `pending` has been applied. */
  ghost predicate Filled(emps: seq<Employee>, store: Store, mes: int, ano: int, dias: nat,
                         pending: set<SlotKey>, columns: seq<string>, rows: seq<GridRow>)
  {
    && |rows| == |emps|
    && (forall i :: 0 <= i < |rows| ==> ShowsEmployee(rows[i], emps[i]))
    && |columns| >= dias && columns[..dias] == DayHeaders(dias, mes, ano)
    && Distinct(columns)
    && (forall i, col :: 0 <= i < |rows| && col in rows[i].cells ==> col in columns)
    && (forall i, d :: 0 <= i < |rows| ==>
          CellAt(rows[i], Header(d, mes, ano))
          == (if SlotKey(emps[i].id, mes, ano, d) !in pending then DbCell(store, emps[i].id, mes, ano, dias, d)
              else if 1 <= d <= dias then Text("") else Missing))
    && ExtraColumns(emps, store, mes, ano, dias, pending, columns[dias..])
  }

  /** The blank grid is the fill loop's state before any stored row is applied. */
  lemma FilledAtStart(emps: seq<Employee>, store: Store, mes: int, ano: int, dias: nat,
                      pending: set<SlotKey>, columns: seq<string>, rows: seq<GridRow>)
    requires pending == set k | k in store && k.mes == mes && k.ano == ano
    requires columns == DayHeaders(dias, mes, ano) && |rows| == |emps|
    requires forall i :: 0 <= i < |rows| ==> rows[i] == Malla.LoadedRow(emps[i], map[], mes, ano, dias)
    ensures Filled(emps, store, mes, ano, dias, pending, columns, rows)
  {
    forall i, j | 0 <= i < j < |columns|
      ensures columns[i] != columns[j]
    {
      HeadersDiffer(i + 1, j + 1, mes, ano);
    }
    forall i | 0 <= i < |rows|
      ensures ShowsEmployee(rows[i], emps[i])
      ensures forall col :: col in rows[i].cells ==> col in columns
    {
      Malla.LoadedRowShows(emps[i], map[], mes, ano, dias);
      Malla.LoadedRowKeys(emps[i], map[], mes, ano, dias);
      forall col | col in rows[i].cells
        ensures col in columns
      {
        var d :| 1 <= d <= dias && col == Header(d, mes, ano);
        assert columns[d - 1] == col;
      }
    }
    forall i, d | 0 <= i < |rows|
      ensures CellAt(rows[i], Header(d, mes, ano))
           == (if SlotKey(emps[i].id, mes, ano, d) !in pending then DbCell(store, emps[i].id, mes, ano, dias, d)
               else if 1 <= d <= dias then Text("") else Missing)
    {
      Malla.LoadedRowCell(emps[i], map[], mes, ano, dias, d);
    }
    assert columns[dias..] == [];
  }

  /** A stored row of an employee nobody in the list has changes nothing. */
  lemma FillSkip(emps: seq<Employee>, store: Store, mes: int, ano: int, dias: nat,
                 pending: set<SlotKey>, columns: seq<string>, rows: seq<GridRow>, k: SlotKey)
    requires Filled(emps, store, mes, ano, dias, pending, columns, rows)
    requires k in pending && k.empleadoId !in EmployeeIds(emps)
    ensures Filled(emps, store, mes, ano, dias, pending - {k}, columns, rows)
  {
    forall i | 0 <= i < |emps|
      ensures emps[i].id != k.empleadoId
    {
      assert emps[i].id in EmployeeIds(emps);
    }
  }

  /** Applying a stored row of a listed employee sets that employee's cell of
      the row's day, adding the day's column at the end when it is new. */
  lemma FillApply(emps: seq<Employee>, store: Store, mes: int, ano: int, dias: nat,
                  pending: set<SlotKey>, columns: seq<string>, rows: seq<GridRow>, k: SlotKey,
                  columns': seq<string>, rows': seq<GridRow>)
    requires Filled(emps, store, mes, ano, dias, pending, columns, rows)
    requires k in pending && k in store && k.mes == mes && k.ano == ano && k.empleadoId in EmployeeIds(emps)
    requires var col := Header(k.dia, mes, ano);
             columns' == if col in columns then columns else columns + [col]
    requires |rows'| == |rows|
    requires forall i :: 0 <= i < |rows'| ==>
               rows'[i] == if emps[i].id == k.empleadoId
                           then rows[i].(cells := rows[i].cells[Header(k.dia, mes, ano) := Text(CodeText(store[k]))])
                           else rows[i]
    ensures Filled(emps, store, mes, ano, dias, pending - {k}, columns', rows')
  {
    FillApplyCells(emps, store, mes, ano, dias, pending, columns, rows, k, rows');
    FillApplyColumns(emps, store, mes, ano, dias, pending, columns, k);
    FillApplyRows(emps, columns, rows, k.empleadoId, Header(k.dia, mes, ano), Text(CodeText(store[k])), columns', rows');
  }

  /** Setting one column of one employee's rows keeps every row showing its
      employee and every cell under a column of the grid. */
  lemma FillApplyRows(emps: seq<Employee>, columns: seq<string>, rows: seq<GridRow>, id: int, col: string,
                      value: Cell, columns': seq<string>, rows': seq<GridRow>)
    requires |rows| == |emps| && forall i :: 0 <= i < |rows| ==> ShowsEmployee(rows[i], emps[i])
    requires forall i, c :: 0 <= i < |rows| && c in rows[i].cells ==> c in columns
    requires columns' == if col in columns then columns else columns + [col]
    requires |rows'| == |rows|
    requires forall i :: 0 <= i < |rows'| ==>
               rows'[i] == if emps[i].id == id then rows[i].(cells := rows[i].cells[col := value]) else rows[i]
    ensures forall i :: 0 <= i < |rows'| ==> ShowsEmployee(rows'[i], emps[i])
    ensures forall i, c :: 0 <= i < |rows'| && c in rows'[i].cells ==> c in columns'
  {
    forall i | 0 <= i < |rows'|
      ensures ShowsEmployee(rows'[i], emps[i])
      ensures forall c :: c in rows'[i].cells ==> c in columns'
    {
    }
  }

  /** The cells after applying stored row `k`. */
  lemma FillApplyCells(emps: seq<Employee>, store: Store, mes: int, ano: int, dias: nat,
                       pending: set<SlotKey>, columns: seq<string>, rows: seq<GridRow>, k: SlotKey,
                       rows': seq<GridRow>)
    requires Filled(emps, store, mes, ano, dias, pending, columns, rows)
    requires k in pending && k in store && k.mes == mes && k.ano == ano
    requires |rows'| == |rows|
    requires forall i :: 0 <= i < |rows'| ==>
               rows'[i] == if emps[i].id == k.empleadoId
                           then rows[i].(cells := rows[i].cells[Header(k.dia, mes, ano) := Text(CodeText(store[k]))])
                           else rows[i]
    ensures forall i, d :: 0 <= i < |rows'| ==>
              CellAt(rows'[i], Header(d, mes, ano))
              == (if SlotKey(emps[i].id, mes, ano, d) !in pending - {k} then DbCell(store, emps[i].id, mes, ano, dias, d)
                  else if 1 <= d <= dias then Text("") else Missing)
  {
    forall i, d | 0 <= i < |rows'|
      ensures CellAt(rows'[i], Header(d, mes, ano))
              == (if SlotKey(emps[i].id, mes, ano, d) !in pending - {k} then DbCell(store, emps[i].id, mes, ano, dias, d)
                  else if 1 <= d <= dias then Text("") else Missing)
    {
      if emps[i].id == k.empleadoId && d != k.dia {
        HeadersDiffer(d, k.dia, mes, ano);
      }
    }
  }

  /** The extra columns of the fill loop's state: the labels of the applied
      stored days outside 1..dias of listed employees. */
  ghost predicate ExtraColumns(emps: seq<Employee>, store: Store, mes: int, ano: int, dias: nat,
                               pending: set<SlotKey>, extra: seq<string>)
  {
    forall col :: col in extra <==>
      exists k' :: k' in store && k' !in pending && k'.mes == mes && k'.ano == ano
                   && k'.empleadoId in EmployeeIds(emps) && !(1 <= k'.dia <= dias) && col == Header(k'.dia, mes, ano)
  }

  /** The columns after applying stored row `k` of a listed employee. */
  lemma FillApplyColumns(emps: seq<Employee>, store: Store, mes: int, ano: int, dias: nat,
                         pending: set<SlotKey>, columns: seq<string>, k: SlotKey)
    requires |columns| >= dias && columns[..dias] == DayHeaders(dias, mes, ano) && Distinct(columns)
    requires ExtraColumns(emps, store, mes, ano, dias, pending, columns[dias..])
    requires k in pending && k in store && k.mes == mes && k.ano == ano && k.empleadoId in EmployeeIds(emps)
    ensures var col := Header(k.dia, mes, ano);
            var columns' := if col in columns then columns else columns + [col];
            && |columns'| >= dias && columns'[..dias] == DayHeaders(dias, mes, ano) && Distinct(columns')
            && ExtraColumns(emps, store, mes, ano, dias, pending - {k}, columns'[dias..])
  {
    var col := Header(k.dia, mes, ano);
    if 1 <= k.dia <= dias {
      assert columns[k.dia - 1] == columns[..dias][k.dia - 1] == col;
      ExtraColumnsInRange(emps, store, mes, ano, dias, pending, columns[dias..], k);
    } else {
      FillApplyExtraColumn(emps, store, mes, ano, dias, pending, columns, k);
    }
  }

  /** Applying a stored day 1..dias leaves the extra columns as they are. */
  lemma ExtraColumnsInRange(emps: seq<Employee>, store: Store, mes: int, ano: int, dias: nat,
                            pending: set<SlotKey>, extra: seq<string>, k: SlotKey)
    requires ExtraColumns(emps, store, mes, ano, dias, pending, extra)
    requires 1 <= k.dia <= dias
    ensures ExtraColumns(emps, store, mes, ano, dias, pending - {k}, extra)
  {
  }

  /** Applying a stored day outside 1..dias adds its label at the end unless
      it is already there. */
  lemma FillApplyExtraColumn(emps: seq<Employee>, store: Store, mes: int, ano: int, dias: nat,
                             pending: set<SlotKey>, columns: seq<string>, k: SlotKey)
    requires |columns| >= dias && columns[..dias] == DayHeaders(dias, mes, ano) && Distinct(columns)
    requires ExtraColumns(emps, store, mes, ano, dias, pending, columns[dias..])
    requires k in pending && k in store && k.mes == mes && k.ano == ano && k.empleadoId in EmployeeIds(emps)
    requires !(1 <= k.dia <= dias)
    ensures var col := Header(k.dia, mes, ano);
            var columns' := if col in columns then columns else columns + [col];
            && |columns'| >= dias && columns'[..dias] == DayHeaders(dias, mes, ano) && Distinct(columns')
            && ExtraColumns(emps, store, mes, ano, dias, pending - {k}, columns'[dias..])
  {
    var col := Header(k.dia, mes, ano);
    var columns' := if col in columns then columns else columns + [col];
    assert columns'[..dias] == columns[..dias];
    forall j | 0 <= j < dias
      ensures columns[j] != col
    {
      assert columns[j] == columns[..dias][j] == Header(j + 1, mes, ano);
      HeadersDiffer(j + 1, k.dia, mes, ano);
    }
    if col in columns {
      var j :| 0 <= j < |columns| && columns[j] == col;
      assert col in columns[dias..] by {
        assert columns[dias..][j - dias] == col;
      }
    } else {
      assert columns'[dias..] == columns[dias..] + [col];
    }
  }

  /** What get_malla_turnos returns for a non-empty employee table: one row per
      employee, in order, showing its attributes; the columns are the days
      1..dias followed, once each, by the other stored days of listed
      employees; each row shows, for every day, the stored code ("" for NULL),
      "" for a day 1..dias without a stored row, and NaN for any other day. */
  ghost predicate DbLoaded(emps: seq<Employee>, store: Store, mes: int, ano: int, grid: Grid) {
    var dias := DbDaysInMonth(mes, ano);
    && |grid.rows| == |emps|
    && (forall i :: 0 <= i < |grid.rows| ==> ShowsEmployee(grid.rows[i], emps[i]))
    && |grid.columns| >= dias && grid.columns[..dias] == DayHeaders(dias, mes, ano)
    && Distinct(grid.columns)
    && (forall i, col :: 0 <= i < |grid.rows| && col in grid.rows[i].cells ==> col in grid.columns)
    && (forall i, d :: 0 <= i < |grid.rows| ==>
          CellAt(grid.rows[i], Header(d, mes, ano)) == DbCell(store, emps[i].id, mes, ano, dias, d))
    && (forall col :: col in grid.columns[dias..] <==>
          exists k :: k in store && k.mes == mes && k.ano == ano && k.empleadoId in EmployeeIds(emps)
                      && !(1 <= k.dia <= dias) && col == Header(k.dia, mes, ano))
  }

  /** get_malla_turnos: nothing at all without employees; otherwise the blank
      grid with every stored row of the month applied in turn, in no particular
      order, which yields the grid `DbLoaded` describes. */
  method DbLoadGrid(emps: seq<Employee>, store: Store, mes: int, ano: int) returns (grid: Grid)
    ensures |emps| == 0 ==> grid == Grid([], [])
    ensures |emps| > 0 ==> DbLoaded(emps, store, mes, ano, grid)
  {
    if |emps| == 0 {
      return Grid([], []);
    }
    var dias := DbDaysInMonth(mes, ano);
    var columns, rows := BlankGrid(emps, mes, ano, dias);
    var pending := set k | k in store && k.mes == mes && k.ano == ano;
    FilledAtStart(emps, store, mes, ano, dias, pending, columns, rows);
    while pending != {}
      invariant forall k :: k in pending ==> k in store && k.mes == mes && k.ano == ano
      invariant Filled(emps, store, mes, ano, dias, pending, columns, rows)
      decreases pending
    {
      var k :| k in pending;
      if k.empleadoId in EmployeeIds(emps) {
        var col := Header(k.dia, mes, ano);
        var columns' := if col in columns then columns else columns + [col];
        var rows' := SetCells(rows, emps, k.empleadoId, col, Text(CodeText(store[k])));
        FillApply(emps, store, mes, ano, dias, pending, columns, rows, k, columns', rows');
        columns, rows := columns', rows';
      } else {
        FillSkip(emps, store, mes, ano, dias, pending, columns, rows, k);
      }
      pending := pending - {k};
    }
    grid := Grid(columns, rows);
  }

  // ---------------------------------------------------------------------
  // Saving the grid (guardar_malla_turnos).
  // ---------------------------------------------------------------------

  /** `row[col] or None`: "" is falsy and becomes NULL; NaN is truthy and is
      passed on, and SQLite stores a NaN parameter as NULL; any other text is
      stored as it is, unstripped. */
  function DbCode(c: Cell): Option<string> {
    match c
    case Missing => None
    case Text(s) => if s == "" then None else Some(s)
  }

  /** A grid row is skipped when its CC finds no employee id, or finds id 0
      (`if not emp_id`). */
  predicate Skipped(index: map<string, int>, row: GridRow) {
    row.cc !in index || index[row.cc] == 0
  }

  /** A column whose label contains "/" but whose text before the first "/"
      is not an integer: `int()` raises ValueError on it. */
  predicate BadColumn(col: string) {
    '/' in col && DayOfColumn(col).None?
  }

  /** A label whose day part ends with one of the separators U+001C..U+001F
      is bad: `int()` raises on it although `strip()` would remove it. */
  lemma SeparatorLabelIsBad(day: string, c: char, rest: string)
    requires '\U{1C}' <= c <= '\U{1F}' && '/' !in day
    ensures BadColumn(day + [c] + "/" + rest)
  {
    assert day + [c] + "/" + rest == (day + [c]) + ['/'] + rest;
    SplitAfterSegment(day + [c], '/', rest);
    ParseIntRejectsSeparator(day, c);
  }

  /** Column `col` names day `d`: its label contains "/" and reads as `d`. */
  predicate NamesDay(col: string, d: int) {
    '/' in col && DayOfColumn(col) == Some(d)
  }

  /** The upserts of one grid row for employee `id`, column by column: every
      column whose label contains "/" writes the day before its first "/".
      None when some such label is not an integer. */
  function DbRowWrites(id: int, row: GridRow, columns: seq<string>, mes: int, ano: int): Option<Store>
    decreases |columns|
  {
    if columns == [] then Some(map[])
    else
      match DbRowWrites(id, row, columns[..|columns| - 1], mes, ano)
      case None => None
      case Some(w) =>
        var col := columns[|columns| - 1];
        if '/' !in col then Some(w)
        else
          match DayOfColumn(col)
          case None => None
          case Some(dia) => Some(w[SlotKey(id, mes, ano, dia) := DbCode(CellAt(row, col))])
  }

  /** The store after the upserts of `rows`, in order, starting from `store`;
      None when an upsert raises, and then nothing is committed. */
  function DbSaveRows(store: Store, index: map<string, int>, rows: seq<GridRow>,
                      columns: seq<string>, mes: int, ano: int): Option<Store>
    decreases |rows|
  {
    if rows == [] then Some(store)
    else
      match DbSaveRows(store, index, rows[..|rows| - 1], columns, mes, ano)
      case None => None
      case Some(before) =>
        var row := rows[|rows| - 1];
        if Skipped(index, row) then Some(before)
        else
          match DbRowWrites(index[row.cc], row, columns, mes, ano)
          case None => None
          case Some(w) => Some(before + w)
  }

  /** The store after saving `grid` for this month, or None when the save raises. */
  function DbSaved(store: Store, emps: seq<Employee>, grid: Grid, mes: int, ano: int): Option<Store> {
    DbSaveRows(store, IdByCedula(emps), grid.rows, grid.columns, mes, ano)
  }

  /** The inner loop of guardar_malla_turnos over the columns of one row whose
      CC found employee `id`: the row's upserts made on `current`, or None when
      a label raises. */
  method DbWriteRow(current: Store, id: int, row: GridRow, columns: seq<string>, mes: int, ano: int)
    returns (result: Option<Store>)
    ensures result.None? <==> DbRowWrites(id, row, columns, mes, ano).None?
    ensures result.Some? ==> result.value == current + DbRowWrites(id, row, columns, mes, ano).value
  {
    var next := current;
    for c := 0 to |columns|
      invariant DbRowWrites(id, row, columns[..c], mes, ano).Some?
      invariant next == current + DbRowWrites(id, row, columns[..c], mes, ano).value
    {
      var col := columns[c];
      assert columns[..c + 1][..c] == columns[..c];
      if '/' in col {
        var dia := DayOfColumn(col);
        if dia.None? {
          DbRowWritesFails(id, row, columns, mes, ano);
          assert BadColumn(columns[c]);
          return None;
        }
        next := next[SlotKey(id, mes, ano, dia.value) := DbCode(CellAt(row, col))];
      }
    }
    assert columns[..|columns|] == columns;
    return Some(next);
  }

  /** guardar_malla_turnos: for each row whose CC finds a non-zero employee id
      and each column whose label contains "/", INSERT OR REPLACE the cell
      (NULL when falsy) under the day read from the label. A label that does
      not read as an integer raises before the commit: the result is None and
      the table keeps its old contents. */
  method DbSaveGrid(store: Store, emps: seq<Employee>, grid: Grid, mes: int, ano: int)
    returns (result: Option<Store>)
    ensures result == DbSaved(store, emps, grid, mes, ano)
  {
    var index := IdByCedula(emps);
    var current := store;
    for r := 0 to |grid.rows|
      invariant DbSaveRows(store, index, grid.rows[..r], grid.columns, mes, ano) == Some(current)
    {
      var row := grid.rows[r];
      assert grid.rows[..r + 1][..r] == grid.rows[..r];
      if row.cc in index && index[row.cc] != 0 {
        var written := DbWriteRow(current, index[row.cc], row, grid.columns, mes, ano);
        if written.None? {
          DbRowWritesFails(index[row.cc], row, grid.columns, mes, ano);
          DbSaveRowsFails(store, index, grid.rows, grid.columns, mes, ano);
          assert !Skipped(index, grid.rows[r]);
          return None;
        }
        current := written.value;
      }
    }
    assert grid.rows[..|grid.rows|] == grid.rows;
    return Some(current);
  }

  /** One more column makes the row's upserts raise exactly when the earlier
      columns already do or the new label does not read as an integer. */
  lemma DbRowWritesStep(id: int, row: GridRow, columns: seq<string>, mes: int, ano: int)
    requires columns != []
    ensures DbRowWrites(id, row, columns, mes, ano).None? <==>
              DbRowWrites(id, row, columns[..|columns| - 1], mes, ano).None? || BadColumn(columns[|columns| - 1])
  {
  }

  /** A row's upserts raise exactly when some column label containing "/"
      does not read as an integer. */
  lemma {:induction false} DbRowWritesFails(id: int, row: GridRow, columns: seq<string>, mes: int, ano: int)
    ensures DbRowWrites(id, row, columns, mes, ano).None? <==>
              exists c :: 0 <= c < |columns| && BadColumn(columns[c])
    decreases |columns|
  {
    if columns != [] {
      var front := columns[..|columns| - 1];
      var last := columns[|columns| - 1];
      DbRowWritesFails(id, row, front, mes, ano);
      DbRowWritesStep(id, row, columns, mes, ano);
      BadColumnSnoc(front, last);
      assert columns == front + [last];
    }
  }

  /** A bad label occurs in `front + [last]` exactly when it occurs in `front`
      or `last` is bad. */
  lemma BadColumnSnoc(front: seq<string>, last: string)
    ensures (exists c :: 0 <= c < |front + [last]| && BadColumn((front + [last])[c])) <==>
              (exists c :: 0 <= c < |front| && BadColumn(front[c])) || BadColumn(last)
  {
    var columns := front + [last];
    if exists c :: 0 <= c < |front| && BadColumn(front[c]) {
      var c :| 0 <= c < |front| && BadColumn(front[c]);
      assert columns[c] == front[c];
    }
    if exists c :: 0 <= c < |columns| && BadColumn(columns[c]) {
      var c :| 0 <= c < |columns| && BadColumn(columns[c]);
      if c < |front| {
        assert front[c] == columns[c];
      }
    }
    assert columns[|front|] == last;
  }

  /** A save raises exactly when some row is not skipped and some column label
      containing "/" does not read as an integer; whether it raises does not
      depend on the stored table. */
  lemma {:induction false} DbSaveRowsFails(store: Store, index: map<string, int>, rows: seq<GridRow>,
                                           columns: seq<string>, mes: int, ano: int)
    ensures DbSaveRows(store, index, rows, columns, mes, ano).None? <==>
              (exists j :: 0 <= j < |rows| && !Skipped(index, rows[j]))
              && (exists c :: 0 <= c < |columns| && BadColumn(columns[c]))
    decreases |rows|
  {
    if rows != [] {
      var front := rows[..|rows| - 1];
      var last := rows[|rows| - 1];
      DbSaveRowsFails(store, index, front, columns, mes, ano);
      if !Skipped(index, last) {
        DbRowWritesFails(index[last.cc], last, columns, mes, ano);
      }
      if exists j :: 0 <= j < |front| && !Skipped(index, front[j]) {
        var j :| 0 <= j < |front| && !Skipped(index, front[j]);
        assert rows[j] == front[j];
      }
      if exists j :: 0 <= j < |rows| && !Skipped(index, rows[j]) {
        var j :| 0 <= j < |rows| && !Skipped(index, rows[j]);
        if j < |front| {
          assert !Skipped(index, front[j]);
        }
      }
    }
  }

  /** Some column of `columns` names day `d`. */
  predicate NamedIn(columns: seq<string>, d: int) {
    exists c :: 0 <= c < |columns| && NamesDay(columns[c], d)
  }

  /** Day `d` is named in `front + [last]` exactly when it is named in `front`
      or by `last`. */
  lemma NamedInSnoc(front: seq<string>, last: string, d: int)
    ensures NamedIn(front + [last], d) <==> NamedIn(front, d) || NamesDay(last, d)
  {
    var columns := front + [last];
    if NamedIn(front, d) {
      var c :| 0 <= c < |front| && NamesDay(front[c], d);
      assert columns[c] == front[c];
    }
    if NamedIn(columns, d) {
      var c :| 0 <= c < |columns| && NamesDay(columns[c], d);
      if c < |front| {
        assert front[c] == columns[c];
      }
    }
    assert columns[|front|] == last;
  }

  /** A row's upserts are for its employee and this month, one key per day
      some column names. */
  lemma {:induction false} DbRowWritesKeys(id: int, row: GridRow, columns: seq<string>, mes: int, ano: int, k: SlotKey)
    requires DbRowWrites(id, row, columns, mes, ano).Some?
    ensures k in DbRowWrites(id, row, columns, mes, ano).value <==>
              k.empleadoId == id && k.mes == mes && k.ano == ano && NamedIn(columns, k.dia)
    decreases |columns|
  {
    if columns != [] {
      var front := columns[..|columns| - 1];
      var last := columns[|columns| - 1];
      DbRowWritesKeys(id, row, front, mes, ano, k);
      NamedInSnoc(front, last, k.dia);
      assert columns == front + [last];
    }
  }

  /** The upsert of a day holds the cell of the last column naming that day. */
  lemma {:induction false} DbRowWritesLastColumnWins(id: int, row: GridRow, columns: seq<string>, mes: int, ano: int,
                                                     c: int, d: int)
    requires DbRowWrites(id, row, columns, mes, ano).Some?
    requires 0 <= c < |columns| && NamesDay(columns[c], d)
    requires forall c' :: c < c' < |columns| ==> !NamesDay(columns[c'], d)
    ensures var w := DbRowWrites(id, row, columns, mes, ano).value;
            SlotKey(id, mes, ano, d) in w && w[SlotKey(id, mes, ano, d)] == DbCode(CellAt(row, columns[c]))
    decreases |columns|
  {
    var front := columns[..|columns| - 1];
    if c < |columns| - 1 {
      DbRowWritesLastColumnWins(id, row, front, mes, ano, c, d);
    }
  }

  /** Saving overlays the same writes on whatever was stored before, and
      whether it raises does not depend on the stored table. */
  lemma {:induction false} DbSaveRowsOverlay(store: Store, index: map<string, int>, rows: seq<GridRow>,
                                             columns: seq<string>, mes: int, ano: int)
    ensures DbSaveRows(store, index, rows, columns, mes, ano).None?
            <==> DbSaveRows(map[], index, rows, columns, mes, ano).None?
    ensures DbSaveRows(store, index, rows, columns, mes, ano).Some? ==>
              DbSaveRows(store, index, rows, columns, mes, ano).value
              == store + DbSaveRows(map[], index, rows, columns, mes, ano).value
    decreases |rows|
  {
    if rows != [] {
      var front := rows[..|rows| - 1];
      var row := rows[|rows| - 1];
      DbSaveRowsOverlay(store, index, front, columns, mes, ano);
      var before := DbSaveRows(map[], index, front, columns, mes, ano);
      if before.Some? && !Skipped(index, row) {
        var rw := DbRowWrites(index[row.cc], row, columns, mes, ano);
        if rw.Some? {
          assert (store + before.value) + rw.value == store + (before.value + rw.value);
        }
      }
    }
  }

  /** The writes a save makes, independently of what was stored before. */
  function DbWrites(emps: seq<Employee>, grid: Grid, mes: int, ano: int): Option<Store> {
    DbSaved(map[], emps, grid, mes, ano)
  }

  /** A save is the old table overlaid with the save's writes, or raises
      whatever the old table holds. */
  lemma DbSavedIsOverlay(store: Store, emps: seq<Employee>, grid: Grid, mes: int, ano: int)
    ensures DbSaved(store, emps, grid, mes, ano).None? <==> DbWrites(emps, grid, mes, ano).None?
    ensures DbSaved(store, emps, grid, mes, ano).Some? ==>
              DbSaved(store, emps, grid, mes, ano).value == store + DbWrites(emps, grid, mes, ano).value
  {
    DbSaveRowsOverlay(store, IdByCedula(emps), grid.rows, grid.columns, mes, ano);
  }

  /** Saving the same grid twice leaves the same table as saving it once. */
  lemma DbSaveIdempotent(store: Store, emps: seq<Employee>, grid: Grid, mes: int, ano: int)
    ensures DbSaved(store, emps, grid, mes, ano).Some? ==>
              DbSaved(DbSaved(store, emps, grid, mes, ano).value, emps, grid, mes, ano)
              == DbSaved(store, emps, grid, mes, ano)
  {
    var once := DbSaved(store, emps, grid, mes, ano);
    DbSavedIsOverlay(store, emps, grid, mes, ano);
    if once.Some? {
      DbSavedIsOverlay(once.value, emps, grid, mes, ano);
      var w := DbWrites(emps, grid, mes, ano).value;
      assert (store + w) + w == store + w;
    }
  }

  /** Every write is for this month, a day some column names, and the id a
      non-skipped row's CC finds. */
  lemma {:induction false} DbSaveRowsWrites(index: map<string, int>, rows: seq<GridRow>,
                                            columns: seq<string>, mes: int, ano: int, k: SlotKey)
    requires DbSaveRows(map[], index, rows, columns, mes, ano).Some?
    requires k in DbSaveRows(map[], index, rows, columns, mes, ano).value
    ensures k.mes == mes && k.ano == ano && NamedIn(columns, k.dia)
    ensures exists j :: 0 <= j < |rows| && !Skipped(index, rows[j]) && index[rows[j].cc] == k.empleadoId
    decreases |rows|
  {
    var front := rows[..|rows| - 1];
    var row := rows[|rows| - 1];
    if !Skipped(index, row) && k in DbRowWrites(index[row.cc], row, columns, mes, ano).value {
      DbRowWritesKeys(index[row.cc], row, columns, mes, ano, k);
    } else {
      DbSaveRowsWrites(index, front, columns, mes, ano, k);
      var j :| 0 <= j < |front| && !Skipped(index, front[j]) && index[front[j].cc] == k.empleadoId;
      assert rows[j] == front[j];
    }
  }

  /** A save changes only this month's days of employees whose cédula some grid
      row carries; every other entry is kept as it was. */
  lemma DbSaveFrame(store: Store, emps: seq<Employee>, grid: Grid, mes: int, ano: int, k: SlotKey)
    requires DbSaved(store, emps, grid, mes, ano).Some?
    requires k.mes != mes || k.ano != ano
          || forall j :: 0 <= j < |grid.rows| ==>
               !exists i :: 0 <= i < |emps| && emps[i].cedula == grid.rows[j].cc && emps[i].id == k.empleadoId
    ensures k in DbSaved(store, emps, grid, mes, ano).value <==> k in store
    ensures k in store ==> DbSaved(store, emps, grid, mes, ano).value[k] == store[k]
  {
    DbSavedIsOverlay(store, emps, grid, mes, ano);
    var index := IdByCedula(emps);
    if k in DbWrites(emps, grid, mes, ano).value {
      DbSaveRowsWrites(index, grid.rows, grid.columns, mes, ano, k);
      var j :| 0 <= j < |grid.rows| && !Skipped(index, grid.rows[j]) && index[grid.rows[j].cc] == k.empleadoId;
      IdByCedulaFinds(emps);
      assert false;
    }
  }

  /** The entry of a day holds the cell of the last non-skipped row for that
      employee, in the last column naming that day. */
  lemma {:induction false} DbSaveRowsLastRowWins(store: Store, index: map<string, int>, rows: seq<GridRow>,
                                                 columns: seq<string>, mes: int, ano: int, j: int, c: int, d: int)
    requires DbSaveRows(store, index, rows, columns, mes, ano).Some?
    requires 0 <= j < |rows| && !Skipped(index, rows[j])
    requires forall j' :: j < j' < |rows| && !Skipped(index, rows[j']) ==> index[rows[j'].cc] != index[rows[j].cc]
    requires 0 <= c < |columns| && NamesDay(columns[c], d)
    requires forall c' :: c < c' < |columns| ==> !NamesDay(columns[c'], d)
    ensures var k := SlotKey(index[rows[j].cc], mes, ano, d);
            var saved := DbSaveRows(store, index, rows, columns, mes, ano).value;
            k in saved && saved[k] == DbCode(CellAt(rows[j], columns[c]))
    decreases |rows|
  {
    var k := SlotKey(index[rows[j].cc], mes, ano, d);
    var last := rows[|rows| - 1];
    if !Skipped(index, last) {
      DbRowWritesKeys(index[last.cc], last, columns, mes, ano, k);
    }
    if j < |rows| - 1 {
      DbSaveRowsLastRowWins(store, index, rows[..|rows| - 1], columns, mes, ano, j, c, d);
    } else {
      DbRowWritesLastColumnWins(index[last.cc], last, columns, mes, ano, c, d);
    }
  }

  /** A blank or NaN cell of a known employee's row is stored as NULL (the entry
      is kept, not deleted); any other cell is stored as its text, unstripped. */
  lemma DbSaveCell(store: Store, emps: seq<Employee>, grid: Grid, mes: int, ano: int, j: int, c: int, d: int)
    requires DbSaved(store, emps, grid, mes, ano).Some?
    requires UniqueCedulas(emps) && UniqueIds(emps)
    requires 0 <= j < |grid.rows| && grid.rows[j].cc in IdByCedula(emps) && IdByCedula(emps)[grid.rows[j].cc] != 0
    requires forall j' :: j < j' < |grid.rows| ==> grid.rows[j'].cc != grid.rows[j].cc
    requires 0 <= c < |grid.columns| && NamesDay(grid.columns[c], d)
    requires forall c' :: c < c' < |grid.columns| ==> !NamesDay(grid.columns[c'], d)
    ensures var k := SlotKey(IdByCedula(emps)[grid.rows[j].cc], mes, ano, d);
            var cell := CellAt(grid.rows[j], grid.columns[c]);
            var saved := DbSaved(store, emps, grid, mes, ano).value;
            && k in saved
            && (saved[k].None? <==> cell == Missing || cell == Text(""))
            && (saved[k].Some? ==> saved[k].value == cell.s)
  {
    var index := IdByCedula(emps);
    IdByCedulaFinds(emps);
    forall j' | j < j' < |grid.rows| && !Skipped(index, grid.rows[j'])
      ensures index[grid.rows[j'].cc] != index[grid.rows[j].cc]
    {
      var a :| 0 <= a < |emps| && emps[a].cedula == grid.rows[j].cc;
      var b :| 0 <= b < |emps| && emps[b].cedula == grid.rows[j'].cc;
      assert a != b;
    }
    DbSaveRowsLastRowWins(store, index, grid.rows, grid.columns, mes, ano, j, c, d);
  }

  // ---------------------------------------------------------------------
  // Loading and saving back.
  // ---------------------------------------------------------------------

  /** Every column of a loaded grid is the label of the day it names. */
  lemma DbLoadedColumnsNameDays(emps: seq<Employee>, store: Store, mes: int, ano: int, grid: Grid)
    requires |emps| > 0 && DbLoaded(emps, store, mes, ano, grid)
    ensures forall c :: 0 <= c < |grid.columns| ==>
              '/' in grid.columns[c] && DayOfColumn(grid.columns[c]).Some?
              && grid.columns[c] == Header(DayOfColumn(grid.columns[c]).value, mes, ano)
  {
    var dias := DbDaysInMonth(mes, ano);
    forall c | 0 <= c < |grid.columns|
      ensures '/' in grid.columns[c] && DayOfColumn(grid.columns[c]).Some?
              && grid.columns[c] == Header(DayOfColumn(grid.columns[c]).value, mes, ano)
    {
      if c < dias {
        assert grid.columns[c] == grid.columns[..dias][c] == Header(c + 1, mes, ano);
        HeaderNamesItsDay(c + 1, mes, ano);
      } else {
        assert grid.columns[dias..][c - dias] == grid.columns[c];
        assert grid.columns[c] in grid.columns[dias..];
        var k :| k in store && k.mes == mes && k.ano == ano && k.empleadoId in EmployeeIds(emps)
                 && !(1 <= k.dia <= dias) && grid.columns[c] == Header(k.dia, mes, ano);
        HeaderNamesItsDay(k.dia, mes, ano);
      }
    }
  }

  /** Saving a loaded grid unchanged never raises. */
  lemma DbLoadedSaves(store: Store, emps: seq<Employee>, mes: int, ano: int, grid: Grid)
    requires |emps| > 0 && DbLoaded(emps, store, mes, ano, grid)
    ensures DbSaved(store, emps, grid, mes, ano).Some?
  {
    DbLoadedColumnsNameDays(emps, store, mes, ano, grid);
    DbSaveRowsFails(store, IdByCedula(emps), grid.rows, grid.columns, mes, ano);
  }

  /** Saving a loaded grid writes, for day `d` of the `i`-th employee, the
      cell the grid shows for that day, when the day has a column. */
  lemma DbRoundTripWritten(emps: seq<Employee>, store: Store, mes: int, ano: int, grid: Grid, i: int, c: int, d: int)
    requires |emps| > 0 && DbLoaded(emps, store, mes, ano, grid)
    requires UniqueCedulas(emps) && UniqueIds(emps)
    requires forall i :: 0 <= i < |emps| ==> emps[i].id != 0
    requires DbWrites(emps, grid, mes, ano).Some?
    requires 0 <= i < |emps| && 0 <= c < |grid.columns| && grid.columns[c] == Header(d, mes, ano)
    ensures var k := SlotKey(emps[i].id, mes, ano, d);
            var w := DbWrites(emps, grid, mes, ano).value;
            k in w && w[k] == DbCode(DbCell(store, emps[i].id, mes, ano, DbDaysInMonth(mes, ano), d))
  {
    var index := IdByCedula(emps);
    IdByCedulaFinds(emps);
    DbLoadedColumnsNameDays(emps, store, mes, ano, grid);
    HeaderNamesItsDay(d, mes, ano);
    assert grid.rows[i].cc == emps[i].cedula;
    forall j' | i < j' < |grid.rows| && !Skipped(index, grid.rows[j'])
      ensures index[grid.rows[j'].cc] != index[grid.rows[i].cc]
    {
      assert grid.rows[j'].cc == emps[j'].cedula;
    }
    forall c' | c < c' < |grid.columns|
      ensures !NamesDay(grid.columns[c'], d)
    {
    }
    DbSaveRowsLastRowWins(map[], index, grid.rows, grid.columns, mes, ano, i, c, d);
  }

  /** Saving a grid whose every column is the label of the day it names (as a
      loaded grid's are) writes only the month's keys of listed employees
      whose day has a column. */
  lemma DbRoundTripWritesOnly(emps: seq<Employee>, mes: int, ano: int, grid: Grid, k: SlotKey)
    requires forall c :: 0 <= c < |grid.columns| ==>
               '/' in grid.columns[c] && DayOfColumn(grid.columns[c]).Some?
               && grid.columns[c] == Header(DayOfColumn(grid.columns[c]).value, mes, ano)
    requires DbWrites(emps, grid, mes, ano).Some? && k in DbWrites(emps, grid, mes, ano).value
    ensures k.mes == mes && k.ano == ano && k.empleadoId in EmployeeIds(emps)
    ensures Header(k.dia, mes, ano) in grid.columns
  {
    var index := IdByCedula(emps);
    IdByCedulaFinds(emps);
    DbSaveRowsWrites(index, grid.rows, grid.columns, mes, ano, k);
    var c :| 0 <= c < |grid.columns| && NamesDay(grid.columns[c], k.dia);
    assert grid.columns[c] == Header(k.dia, mes, ano);
    var j :| 0 <= j < |grid.rows| && !Skipped(index, grid.rows[j]) && index[grid.rows[j].cc] == k.empleadoId;
    var i :| 0 <= i < |emps| && emps[i].cedula == grid.rows[j].cc && emps[i].id == index[grid.rows[j].cc];
    assert emps[i].id in EmployeeIds(emps);
  }

  /** What saving a loaded grid unchanged leaves under one key. */
  lemma DbRoundTripKey(emps: seq<Employee>, store: Store, mes: int, ano: int, grid: Grid, k: SlotKey)
    requires |emps| > 0 && DbLoaded(emps, store, mes, ano, grid)
    requires UniqueCedulas(emps) && UniqueIds(emps)
    requires forall i :: 0 <= i < |emps| ==> emps[i].id != 0
    requires DbSaved(store, emps, grid, mes, ano).Some?
    ensures var saved := DbSaved(store, emps, grid, mes, ano).value;
            var written := k.mes == mes && k.ano == ano && k.empleadoId in EmployeeIds(emps)
                           && Header(k.dia, mes, ano) in grid.columns;
            && (k in saved <==> k in store || written)
            && (k in saved ==>
                  saved[k] == if !written then store[k]
                              else if k in store && store[k] != Some("") then store[k] else None)
  {
    DbSavedIsOverlay(store, emps, grid, mes, ano);
    var w := DbWrites(emps, grid, mes, ano).value;
    if k.mes == mes && k.ano == ano && k.empleadoId in EmployeeIds(emps) && Header(k.dia, mes, ano) in grid.columns {
      var i :| 0 <= i < |emps| && emps[i].id == k.empleadoId;
      var c :| 0 <= c < |grid.columns| && grid.columns[c] == Header(k.dia, mes, ano);
      DbRoundTripWritten(emps, store, mes, ano, grid, i, c, k.dia);
    } else if k in w {
      DbLoadedColumnsNameDays(emps, store, mes, ano, grid);
      DbRoundTripWritesOnly(emps, mes, ano, grid, k);
    }
  }

  /** Loading a month and saving the grid unchanged never raises and changes
      only the month's keys of listed employees whose day has a column: each of
      them keeps its stored code, except that a stored "" becomes NULL, and a
      key without a stored row gains one holding NULL (for the blank days
      1..dias and for every extra day column another employee brought in). */
  lemma DbLoadSaveRoundTrip(emps: seq<Employee>, store: Store, mes: int, ano: int, grid: Grid)
    requires |emps| > 0 && DbLoaded(emps, store, mes, ano, grid)
    requires UniqueCedulas(emps) && UniqueIds(emps)
    requires forall i :: 0 <= i < |emps| ==> emps[i].id != 0
    ensures DbSaved(store, emps, grid, mes, ano).Some?
    ensures var saved := DbSaved(store, emps, grid, mes, ano).value;
            forall k: SlotKey ::
              var written := k.mes == mes && k.ano == ano && k.empleadoId in EmployeeIds(emps)
                             && Header(k.dia, mes, ano) in grid.columns;
              && (k in saved <==> k in store || written)
              && (k in saved ==>
                    saved[k] == if !written then store[k]
                                else if k in store && store[k] != Some("") then store[k] else None)
  {
    DbLoadedSaves(store, emps, mes, ano, grid);
    forall k: SlotKey {
      DbRoundTripKey(emps, store, mes, ano, grid, k);
    }
  }

  // ---------------------------------------------------------------------
  // Shift-code registry (get_codigos_turno).
  // ---------------------------------------------------------------------

  /** get_codigos_turno: one entry per stored code, a later row for a code
      overwriting an earlier one; there is no entry for the empty code. */
  method DbShiftCodes(rows: seq<ShiftCodeRow>) returns (registry: map<string, ShiftInfo>)
    ensures registry.Keys == set i | 0 <= i < |rows| :: rows[i].codigo
    ensures forall i :: 0 <= i < |rows| && (forall j :: i < j < |rows| ==> rows[j].codigo != rows[i].codigo)
              ==> registry[rows[i].codigo] == InfoOf(rows[i])
  {
    registry := RegisterCodes(map[], rows);
    RegisteredCodes(map[], rows);
  }

  /** The registry of malla.py is this one with the "Sin Asignar" entry for the
      empty code put underneath: a stored "" code overrides it. */
  lemma ShiftRegistriesCompared(rows: seq<ShiftCodeRow>)
    ensures Assign(map["" := Malla.Unassigned], CodePairs(rows))
            == map["" := Malla.Unassigned] + Assign(map[], CodePairs(rows))
  {
    AssignOverInit(map["" := Malla.Unassigned], CodePairs(rows));
  }

  // ---------------------------------------------------------------------
  // Configuration (get_configuracion).
  // ---------------------------------------------------------------------

  /** `[item.strip() for item in parts if item.strip()]`. */
  function CleanItems(parts: seq<string>): (items: seq<string>)
    ensures |items| <= |parts|
    ensures forall i :: 0 <= i < |items| ==> items[i] != "" && Strip(items[i]) == items[i]
    decreases |parts|
  {
    if parts == [] then []
    else
      var rest := CleanItems(parts[1..]);
      var item := Strip(parts[0]);
      StripIdempotent(parts[0]);
      if item == "" then rest else [item] + rest
  }

  /** Parts already non-empty and stripped are kept as they are, in order. */
  lemma {:induction false} CleanItemsKeepsClean(parts: seq<string>)
    requires forall i :: 0 <= i < |parts| ==> parts[i] != "" && Strip(parts[i]) == parts[i]
    ensures CleanItems(parts) == parts
    decreases |parts|
  {
    if parts != [] {
      CleanItemsKeepsClean(parts[1..]);
    }
  }

  /** No cleaned item holds a character its parts do not. */
  lemma {:induction false} CleanItemsFromParts(parts: seq<string>, sep: char)
    requires forall i :: 0 <= i < |parts| ==> sep !in parts[i]
    ensures forall i :: 0 <= i < |CleanItems(parts)| ==> sep !in CleanItems(parts)[i]
    decreases |parts|
  {
    if parts != [] {
      CleanItemsFromParts(parts[1..], sep);
      StripKeepsCharacters(parts[0]);
    }
  }

  /** One stored row decoded by its type: "number" through `int` (None where
      it raises, also for NULL), "boolean" as `valor == "1"`, "list" split at
      commas with the items stripped and the empty ones dropped (None for
      NULL), and any other type kept as stored. */
  function DbDecodeSetting(row: ConfigRow): Option<ConfigValue> {
    if row.tipo == Some("number") then
      (if row.valor.None? then None
       else match ParseInt(row.valor.value)
            case Some(n) => Some(Number(n))
            case None => None)
    else if row.tipo == Some("boolean") then Some(Flag(row.valor == Some("1")))
    else if row.tipo == Some("list") then
      (if row.valor.None? then None else Some(Items(CleanItems(Split(row.valor.value, ',')))))
    else Some(Raw(row.valor))
  }

  /** A "number" setting whose text ends with one of the separators
      U+001C..U+001F does not decode, as `int()` raises on it. */
  lemma SeparatorNumberFails(clave: string, valor: string, c: char)
    requires '\U{1C}' <= c <= '\U{1F}'
    ensures DbDecodeSetting(ConfigRow(clave, Some(valor + [c]), Some("number"))) == None
  {
    ParseIntRejectsSeparator(valor, c);
  }

  /** get_configuracion: the decoded stored rows, in order, starting from an
      empty dict; None when some row's value cannot be decoded. */
  method DbConfiguration(rows: seq<ConfigRow>) returns (config: Option<map<string, ConfigValue>>)
    ensures config.None? <==> exists i :: 0 <= i < |rows| && DbDecodeSetting(rows[i]).None?
    ensures config.Some? ==> config.value.Keys == set i | 0 <= i < |rows| :: rows[i].clave
    ensures config.Some? ==>
              forall i :: 0 <= i < |rows| && (forall j :: i < j < |rows| ==> rows[j].clave != rows[i].clave)
                ==> config.value[rows[i].clave] == DbDecodeSetting(rows[i]).value
  {
    config := DecodeConfiguration(map[], rows, DbDecodeSetting);
    if config.Some? {
      DecodedConfiguration(map[], rows, DbDecodeSetting);
    }
  }

  /** A number stored as its decimal text reads back as that number. */
  lemma DbNumberRoundTrip(clave: string, n: int)
    ensures DbDecodeSetting(ConfigRow(clave, Some(IntToString(n)), Some("number"))) == Some(Number(n))
  {
    IntToStringRoundTrip(n);
  }

  /** Every item of a decoded list is non-empty, stripped and free of commas. */
  lemma DbListItemsClean(row: ConfigRow)
    requires row.tipo == Some("list") && row.valor.Some?
    ensures DbDecodeSetting(row).Some? && DbDecodeSetting(row).value.Items?
    ensures forall i :: 0 <= i < |DbDecodeSetting(row).value.items| ==>
              var item := DbDecodeSetting(row).value.items[i];
              item != "" && Strip(item) == item && ',' !in item
  {
    CleanItemsFromParts(Split(row.valor.value, ','), ',');
  }

  /** A list of non-empty, stripped, comma-free items stored joined by commas
      reads back as the same list; the empty list is stored as "". */
  lemma DbListRoundTrip(clave: string, items: seq<string>)
    requires forall i :: 0 <= i < |items| ==> items[i] != "" && Strip(items[i]) == items[i] && ',' !in items[i]
    ensures var text := if items == [] then "" else Join(items, ',');
            DbDecodeSetting(ConfigRow(clave, Some(text), Some("list"))) == Some(Items(items))
  {
    if items != [] {
      JoinThenSplit(items, ',');
      CleanItemsKeepsClean(items);
    } else {
      assert Strip("") == "";
    }
  }

  /** The two applications decode a number or boolean row alike, and a row of
      any other type alike unless its type is "list" or its key is
      "departamentos". */
  lemma DecodersCompared(row: ConfigRow)
    ensures row.tipo == Some("number") || row.tipo == Some("boolean") ==>
              DbDecodeSetting(row) == Malla.DecodeSetting(row)
    ensures row.tipo != Some("list") && row.clave != "departamentos" ==>
              DbDecodeSetting(row) == Malla.DecodeSetting(row)
  {
  }

  // ---------------------------------------------------------------------
  // Authentication (autenticar_usuario).
  // ---------------------------------------------------------------------

  /** The user record autenticar_usuario returns. */
  datatype UserInfo = UserInfo(username: string, role: string, nombre: string, departamento: Option<string>)

  /** autenticar_usuario: the user's record when the user exists and the hash
      of the password equals the stored hash, None otherwise. The hash
      function is a parameter. */
  function Authenticate(users: map<string, UserRecord>, username: string, password: string,
                        hash: string -> string): (r: Option<UserInfo>)
    ensures r.Some? <==> username in users && hash(password) == users[username].passwordHash
    ensures r.Some? ==> r.value.username == username && r.value.role == users[username].role
    ensures r.Some? ==> r.value.nombre == users[username].nombre && r.value.departamento == users[username].departamento
  {
    if username in users && hash(password) == users[username].passwordHash then
      var user := users[username];
      Some(UserInfo(username, user.role, user.nombre, user.departamento))
    else None
  }

  /** malla.py's login succeeds exactly when autenticar_usuario returns a user,
      and then signs the session in with that user's name, role and data. */
  lemma LoginAgreesWithAuthenticate(auth: Access.Auth, users: map<string, UserRecord>, username: string,
                                    password: string, hash: string -> string)
    ensures Access.Login(auth, users, username, password, hash).1 <==> Authenticate(users, username, password, hash).Some?
    ensures Authenticate(users, username, password, hash).Some? ==>
              var info := Authenticate(users, username, password, hash).value;
              Access.Login(auth, users, username, password, hash).0
              == Access.Auth(true, Some(info.username), Some(info.role),
                             Some(Access.UserData(info.nombre, info.departamento)))
  {
  }
}
