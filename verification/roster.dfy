/** The roster data shared by both versions of the application: the assignment
    table, the employee list, the wide employee-by-day grid, the column labels of
    that grid, the shift-code registry and the per-employee month lookup. */
module Roster {
  import opened Wrappers
  import opened Strings

  /** Key of the assignment table (`malla_turnos`), which is
      UNIQUE(empleado_id, mes, ano, dia). */
  datatype SlotKey = SlotKey(empleadoId: int, mes: int, ano: int, dia: int)

  /** The assignment table: at most one shift code per key, and that code may be
      NULL. A key that is absent has no row at all. */
  type Store = map<SlotKey, Option<string>>

  /** A row of the `empleados` table. */
  datatype Employee = Employee(
    id: int,
    numero: int,
    cargo: string,
    nombreCompleto: string,
    cedula: string,
    departamento: string,
    estado: string,
    horaInicio: Option<string>,
    horaFin: Option<string>)

  /** A grid cell: a missing value (pandas NaN or None) or a string. */
  datatype Cell = Missing | Text(s: string)

  /** A row of the wide grid: the employee's attribute columns (N°, CARGO,
      APELLIDOS Y NOMBRES, CC, DEPARTAMENTO, ESTADO and the shift hours; the
      `id` column is dropped before the grid is returned) and the cells of the
      other columns, keyed by column label. */
  datatype GridRow = GridRow(
    numero: int,
    cargo: string,
    nombre: string,
    cc: string,
    departamento: string,
    estado: string,
    horaInicio: Option<string>,
    horaFin: Option<string>,
    cells: map<string, Cell>)

  /** The wide grid: the labels of its non-attribute columns, in order, and its rows. */
  datatype Grid = Grid(columns: seq<string>, rows: seq<GridRow>)

  /** The cell of `row` in column `col`; a column the row has no value for reads as NaN. */
  function CellAt(row: GridRow, col: string): Cell {
    if col in row.cells then row.cells[col] else Missing
  }

  /** The grid row of an employee before any day column is added. */
  function AttributeRow(e: Employee): GridRow {
    GridRow(e.numero, e.cargo, e.nombreCompleto, e.cedula, e.departamento, e.estado,
            e.horaInicio, e.horaFin, map[])
  }

  /** `row` shows the attributes of `e`. */
  predicate ShowsEmployee(row: GridRow, e: Employee) {
    row.(cells := map[]) == AttributeRow(e)
  }

  /** The label of a day column: f"{dia}/{mes}/{ano}". */
  function Header(dia: int, mes: int, ano: int): string {
    IntToString(dia) + "/" + IntToString(mes) + "/" + IntToString(ano)
  }

  /** The labels of the day columns 1..n, in order. */
  function DayHeaders(n: nat, mes: int, ano: int): seq<string> {
    seq(n, i => Header(i + 1, mes, ano))
  }

  /** The labels of days 1..n+1 are those of days 1..n followed by day n+1's. */
  lemma DayHeadersGrow(n: nat, mes: int, ano: int)
    ensures DayHeaders(n + 1, mes, ano) == DayHeaders(n, mes, ano) + [Header(n + 1, mes, ano)]
  {
  }

  /** The day a column label names, read as `int(col.split("/")[0])`;
      None where `int` raises. */
  function DayOfColumn(col: string): Option<int> {
    ParseInt(Split(col, '/')[0])
  }

  /** A day column's label contains "/" and reads back as its day. */
  lemma HeaderNamesItsDay(dia: int, mes: int, ano: int)
    ensures '/' in Header(dia, mes, ano)
    ensures DayOfColumn(Header(dia, mes, ano)) == Some(dia)
  {
    var d := IntToString(dia);
    var tail := IntToString(mes) + "/" + IntToString(ano);
    assert Header(dia, mes, ano) == d + ['/'] + tail;
    assert '/' !in d;
    SplitAfterSegment(d, '/', tail);
    IntToStringRoundTrip(dia);
  }

  /** Different days of one month have different column labels. */
  lemma HeadersDiffer(d1: int, d2: int, mes: int, ano: int)
    requires d1 != d2
    ensures Header(d1, mes, ano) != Header(d2, mes, ano)
  {
    HeaderNamesItsDay(d1, mes, ano);
    HeaderNamesItsDay(d2, mes, ano);
  }

  /** No element occurs twice. */
  predicate Distinct<T(==)>(s: seq<T>) {
    forall i, j :: 0 <= i < j < |s| ==> s[i] != s[j]
  }

  /** The ids of the listed employees. */
  function EmployeeIds(emps: seq<Employee>): set<int> {
    set i | 0 <= i < |emps| :: emps[i].id
  }

  /** The text a loaded grid shows for a key: the stored code, or "" when the
      code is NULL or no row is stored. */
  function ShownCode(store: Store, k: SlotKey): string {
    if k in store then CodeText(store[k]) else ""
  }

  /** `codigo or ""`: a NULL stored code is shown as the empty string. */
  function CodeText(code: Option<string>): string {
    match code
    case Some(c) => c
    case None => ""
  }

  // ---------------------------------------------------------------------
  // Dict assignment in a loop: `d[k] = v` for each pair in order.
  // ---------------------------------------------------------------------

  /** The dict `init` after `d[k] = v` for every pair of `pairs`, in order. */
  function Assign<K, V>(init: map<K, V>, pairs: seq<(K, V)>): map<K, V>
    decreases |pairs|
  {
    if pairs == [] then init
    else Assign(init, pairs[..|pairs| - 1])[pairs[|pairs| - 1].0 := pairs[|pairs| - 1].1]
  }

  /** The keys after the assignments are the initial keys and the assigned ones. */
  lemma {:induction false} AssignKeys<K, V>(init: map<K, V>, pairs: seq<(K, V)>)
    ensures Assign(init, pairs).Keys == init.Keys + (set i | 0 <= i < |pairs| :: pairs[i].0)
    decreases |pairs|
  {
    if pairs != [] {
      var front := pairs[..|pairs| - 1];
      AssignKeys(init, front);
      assert (set i | 0 <= i < |pairs| :: pairs[i].0)
          == (set i | 0 <= i < |front| :: front[i].0) + {pairs[|pairs| - 1].0};
    }
  }

  /** A key holds the value of the last pair that assigns it. */
  lemma {:induction false} AssignLastWins<K, V>(init: map<K, V>, pairs: seq<(K, V)>, i: int)
    requires 0 <= i < |pairs|
    requires forall j :: i < j < |pairs| ==> pairs[j].0 != pairs[i].0
    ensures pairs[i].0 in Assign(init, pairs)
    ensures Assign(init, pairs)[pairs[i].0] == pairs[i].1
    decreases |pairs|
  {
    if i < |pairs| - 1 {
      AssignLastWins(init, pairs[..|pairs| - 1], i);
    }
  }

  /** Assigning onto `init` is assigning onto the empty dict and putting the
      result over `init`. */
  lemma {:induction false} AssignOverInit<K, V>(init: map<K, V>, pairs: seq<(K, V)>)
    ensures Assign(init, pairs) == init + Assign(map[], pairs)
    decreases |pairs|
  {
    if pairs != [] {
      var front := pairs[..|pairs| - 1];
      var last := pairs[|pairs| - 1];
      AssignOverInit(init, front);
      assert (init + Assign(map[], front))[last.0 := last.1] == init + Assign(map[], front)[last.0 := last.1];
    }
  }

  /** A key no pair assigns keeps its initial state. */
  lemma {:induction false} AssignKeepsUnassigned<K, V>(init: map<K, V>, pairs: seq<(K, V)>, k: K)
    requires forall j :: 0 <= j < |pairs| ==> pairs[j].0 != k
    ensures k in Assign(init, pairs) <==> k in init
    ensures k in init ==> Assign(init, pairs)[k] == init[k]
    decreases |pairs|
  {
    if pairs != [] {
      AssignKeepsUnassigned(init, pairs[..|pairs| - 1], k);
    }
  }

  /** Every value after the assignments is an initial one or an assigned one. */
  lemma {:induction false} AssignValues<K, V>(init: map<K, V>, pairs: seq<(K, V)>, k: K)
    requires k in Assign(init, pairs)
    ensures (k in init && Assign(init, pairs)[k] == init[k])
         || (exists j :: 0 <= j < |pairs| && pairs[j] == (k, Assign(init, pairs)[k]))
    decreases |pairs|
  {
    if pairs != [] {
      var last := pairs[|pairs| - 1];
      if k != last.0 {
        var front := pairs[..|pairs| - 1];
        AssignValues(init, front, k);
        if !(k in init && Assign(init, pairs)[k] == init[k]) {
          var j :| 0 <= j < |front| && front[j] == (k, Assign(init, front)[k]);
          assert pairs[j] == front[j];
        }
      } else {
        assert pairs[|pairs| - 1] == (k, Assign(init, pairs)[k]);
      }
    }
  }

  // ---------------------------------------------------------------------
  // Employees by cédula: dict(zip(empleados["cedula"], empleados["id"])).
  // ---------------------------------------------------------------------

  function CedulaPairs(emps: seq<Employee>): seq<(string, int)> {
    seq(|emps|, i requires 0 <= i < |emps| => (emps[i].cedula, emps[i].id))
  }

  /** The employee id of each cédula; a repeated cédula keeps its last id. */
  function IdByCedula(emps: seq<Employee>): map<string, int> {
    Assign(map[], CedulaPairs(emps))
  }

  /** The `cedula TEXT UNIQUE` constraint of the employee table. */
  predicate UniqueCedulas(emps: seq<Employee>) {
    forall i, j :: 0 <= i < j < |emps| ==> emps[i].cedula != emps[j].cedula
  }

  /** The `id INTEGER PRIMARY KEY` constraint of the employee table. */
  predicate UniqueIds(emps: seq<Employee>) {
    forall i, j :: 0 <= i < j < |emps| ==> emps[i].id != emps[j].id
  }

  /** The index knows exactly the employees' cédulas and only maps them to
      employee ids; under the UNIQUE constraint it finds each employee's own id. */
  lemma IdByCedulaFinds(emps: seq<Employee>)
    ensures forall c :: c in IdByCedula(emps) <==> exists i :: 0 <= i < |emps| && emps[i].cedula == c
    ensures forall c :: c in IdByCedula(emps) ==>
              exists i :: 0 <= i < |emps| && emps[i].cedula == c && emps[i].id == IdByCedula(emps)[c]
    ensures UniqueCedulas(emps) ==>
              forall i :: 0 <= i < |emps| ==> IdByCedula(emps)[emps[i].cedula] == emps[i].id
  {
    var pairs := CedulaPairs(emps);
    AssignKeys(map[], pairs);
    forall c | c in IdByCedula(emps)
      ensures exists i :: 0 <= i < |emps| && emps[i].cedula == c && emps[i].id == IdByCedula(emps)[c]
    {
      AssignValues(map[], pairs, c);
      var j :| 0 <= j < |pairs| && pairs[j] == (c, IdByCedula(emps)[c]);
    }
    forall c | exists i :: 0 <= i < |emps| && emps[i].cedula == c
      ensures c in IdByCedula(emps)
    {
      var i :| 0 <= i < |emps| && emps[i].cedula == c;
      assert pairs[i].0 == c;
    }
    if UniqueCedulas(emps) {
      forall i | 0 <= i < |emps|
        ensures IdByCedula(emps)[emps[i].cedula] == emps[i].id
      {
        AssignLastWins(map[], pairs, i);
      }
    }
  }

  // ---------------------------------------------------------------------
  // Shift-code registry.
  // ---------------------------------------------------------------------

  /** What the registry holds for a code. */
  datatype ShiftInfo = ShiftInfo(nombre: string, color: string, horas: int)

  /** A row of the `codigos_turno` table. */
  datatype ShiftCodeRow = ShiftCodeRow(codigo: string, nombre: string, color: string, horas: int)

  function InfoOf(row: ShiftCodeRow): ShiftInfo {
    ShiftInfo(row.nombre, row.color, row.horas)
  }

  function CodePairs(rows: seq<ShiftCodeRow>): seq<(string, ShiftInfo)> {
    seq(|rows|, i requires 0 <= i < |rows| => (rows[i].codigo, InfoOf(rows[i])))
  }

  /** `codigos_dict[codigo] = {...}` for each fetched row, in order. */
  method RegisterCodes(init: map<string, ShiftInfo>, rows: seq<ShiftCodeRow>)
    returns (registry: map<string, ShiftInfo>)
    ensures registry == Assign(init, CodePairs(rows))
  {
    registry := init;
    var i := 0;
    while i < |rows|
      invariant 0 <= i <= |rows|
      invariant registry == Assign(init, CodePairs(rows)[..i])
    {
      assert CodePairs(rows)[..i + 1][..i] == CodePairs(rows)[..i];
      registry := registry[rows[i].codigo := InfoOf(rows[i])];
      i := i + 1;
    }
    assert CodePairs(rows)[..|rows|] == CodePairs(rows);
  }

  /** The registry built from `init` holds every fetched code, each with the
      information of its last row, and otherwise what `init` held. */
  lemma RegisteredCodes(init: map<string, ShiftInfo>, rows: seq<ShiftCodeRow>)
    ensures Assign(init, CodePairs(rows)).Keys
         == init.Keys + (set i | 0 <= i < |rows| :: rows[i].codigo)
    ensures forall i :: 0 <= i < |rows| && (forall j :: i < j < |rows| ==> rows[j].codigo != rows[i].codigo)
              ==> Assign(init, CodePairs(rows))[rows[i].codigo] == InfoOf(rows[i])
    ensures forall c :: c in init && (forall j :: 0 <= j < |rows| ==> rows[j].codigo != c)
              ==> Assign(init, CodePairs(rows))[c] == init[c]
  {
    var pairs := CodePairs(rows);
    AssignKeys(init, pairs);
    assert forall i :: 0 <= i < |rows| ==> pairs[i].0 == rows[i].codigo;
    assert (set i | 0 <= i < |pairs| :: pairs[i].0) == (set i | 0 <= i < |rows| :: rows[i].codigo);
    forall i | 0 <= i < |rows| && (forall j :: i < j < |rows| ==> rows[j].codigo != rows[i].codigo)
      ensures Assign(init, pairs)[rows[i].codigo] == InfoOf(rows[i])
    {
      AssignLastWins(init, pairs, i);
    }
    forall c | c in init && (forall j :: 0 <= j < |rows| ==> rows[j].codigo != c)
      ensures Assign(init, pairs)[c] == init[c]
    {
      AssignKeepsUnassigned(init, pairs, c);
    }
  }

  // ---------------------------------------------------------------------
  // Typed configuration (the `configuracion` table).
  // ---------------------------------------------------------------------

  /** A row of the `configuracion` table; `valor` and `tipo` may be NULL. */
  datatype ConfigRow = ConfigRow(clave: string, valor: Option<string>, tipo: Option<string>)

  /** A decoded configuration value. */
  datatype ConfigValue = Number(n: int) | Flag(b: bool) | Items(items: seq<string>) | Raw(text: Option<string>)

  /** The decoded rows, as `(clave, value)` pairs, when every row decodes. */
  function DecodedPairs(rows: seq<ConfigRow>, decode: ConfigRow -> Option<ConfigValue>): seq<(string, ConfigValue)>
    requires forall i :: 0 <= i < |rows| ==> decode(rows[i]).Some?
  {
    seq(|rows|, i requires 0 <= i < |rows| && decode(rows[i]).Some? => (rows[i].clave, decode(rows[i]).value))
  }

  /** `config[clave] = <decoded valor>` for each fetched row, in order, starting
      from `init`; a row whose value cannot be decoded raises, and no
      configuration is returned. */
  method DecodeConfiguration(init: map<string, ConfigValue>, rows: seq<ConfigRow>,
                             decode: ConfigRow -> Option<ConfigValue>)
    returns (config: Option<map<string, ConfigValue>>)
    ensures config.None? <==> exists i :: 0 <= i < |rows| && decode(rows[i]).None?
    ensures config.Some? ==> config.value == Assign(init, DecodedPairs(rows, decode))
  {
    var result := init;
    var i := 0;
    while i < |rows|
      invariant 0 <= i <= |rows|
      invariant forall j :: 0 <= j < i ==> decode(rows[j]).Some?
      invariant result == Assign(init, DecodedPairs(rows[..i], decode))
    {
      var value := decode(rows[i]);
      if value.None? {
        return None;
      }
      assert DecodedPairs(rows[..i + 1], decode)[..i] == DecodedPairs(rows[..i], decode);
      result := result[rows[i].clave := value.value];
      i := i + 1;
    }
    assert rows[..|rows|] == rows;
    return Some(result);
  }

  /** A decoded configuration holds every key of `init` and of the rows; each
      row key maps to the decoding of its last row, any other key to its
      initial value. */
  lemma DecodedConfiguration(init: map<string, ConfigValue>, rows: seq<ConfigRow>,
                             decode: ConfigRow -> Option<ConfigValue>)
    requires forall i :: 0 <= i < |rows| ==> decode(rows[i]).Some?
    ensures Assign(init, DecodedPairs(rows, decode)).Keys
         == init.Keys + (set i | 0 <= i < |rows| :: rows[i].clave)
    ensures forall i :: 0 <= i < |rows| && (forall j :: i < j < |rows| ==> rows[j].clave != rows[i].clave)
              ==> Assign(init, DecodedPairs(rows, decode))[rows[i].clave] == decode(rows[i]).value
    ensures forall k :: k in init && (forall j :: 0 <= j < |rows| ==> rows[j].clave != k)
              ==> Assign(init, DecodedPairs(rows, decode))[k] == init[k]
  {
    var pairs := DecodedPairs(rows, decode);
    AssignKeys(init, pairs);
    assert forall i :: 0 <= i < |rows| ==> pairs[i].0 == rows[i].clave;
    assert (set i | 0 <= i < |pairs| :: pairs[i].0) == (set i | 0 <= i < |rows| :: rows[i].clave);
    forall i | 0 <= i < |rows| && (forall j :: i < j < |rows| ==> rows[j].clave != rows[i].clave)
      ensures Assign(init, pairs)[rows[i].clave] == decode(rows[i]).value
    {
      AssignLastWins(init, pairs, i);
    }
    forall k | k in init && (forall j :: 0 <= j < |rows| ==> rows[j].clave != k)
      ensures Assign(init, pairs)[k] == init[k]
    {
      AssignKeepsUnassigned(init, pairs, k);
    }
  }

  // ---------------------------------------------------------------------
  // Users.
  // ---------------------------------------------------------------------

  /** A row of the `usuarios` table, keyed by its username. */
  datatype UserRecord = UserRecord(passwordHash: string, role: string, nombre: string, departamento: Option<string>)

  // ---------------------------------------------------------------------
  // Per-employee month lookup (get_turnos_empleado_mes).
  // ---------------------------------------------------------------------

  /** `{dia: codigo}` for the rows stored for one employee and month: exactly the
      stored days, each with its stored (possibly NULL) code. */
  function EmployeeMonth(store: Store, empleadoId: int, mes: int, ano: int): (days: map<int, Option<string>>)
    ensures forall d :: d in days <==> SlotKey(empleadoId, mes, ano, d) in store
    ensures forall d :: d in days ==> days[d] == store[SlotKey(empleadoId, mes, ano, d)]
  {
    map k | k in store && k.empleadoId == empleadoId && k.mes == mes && k.ano == ano :: k.dia := store[k]
  }

  // ---------------------------------------------------------------------
  // The Gregorian calendar, as the reference the day rules are compared with.
  // ---------------------------------------------------------------------

  predicate IsLeapYear(ano: int) {
    ano % 4 == 0 && (ano % 100 != 0 || ano % 400 == 0)
  }

  function CalendarDays(mes: int, ano: int): int
    requires 1 <= mes <= 12
  {
    if mes == 2 then (if IsLeapYear(ano) then 29 else 28)
    else if mes == 4 || mes == 6 || mes == 9 || mes == 11 then 30
    else 31
  }
}
