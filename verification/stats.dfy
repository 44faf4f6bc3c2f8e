/** The figures the single-file application (malla.py) shows under the grid:
    the number of rows, a count per shift code over the day columns, the total
    number of shifts, the total hours and the number of active employees. */
module Statistics {
  import opened Wrappers
  import opened Roster

  // ---------------------------------------------------------------------
  // The cells that are counted.
  // ---------------------------------------------------------------------

  /** The day columns of a grid: the labels that contain "/", in order. */
  function DayColumns(columns: seq<string>): (days: seq<string>)
    ensures forall c :: c in days <==> c in columns && '/' in c
    ensures |days| <= |columns|
    decreases |columns|
  {
    if columns == [] then []
    else
      var last := columns[|columns| - 1];
      DayColumns(columns[..|columns| - 1]) + (if '/' in last then [last] else [])
  }

  /** A cell holds a shift when it is neither NaN nor "". */
  predicate HoldsShift(c: Cell) {
    c.Text? && c.s != ""
  }

  /** The shift codes of one column, from the first row to the last. */
  function ColumnCodes(rows: seq<GridRow>, col: string): seq<string>
    decreases |rows|
  {
    if rows == [] then []
    else
      var cell := CellAt(rows[|rows| - 1], col);
      ColumnCodes(rows[..|rows| - 1], col) + (if HoldsShift(cell) then [cell.s] else [])
  }

  /** The shift codes of the grid, column by column. */
  function GridCodes(rows: seq<GridRow>, cols: seq<string>): seq<string>
    decreases |cols|
  {
    if cols == [] then []
    else GridCodes(rows, cols[..|cols| - 1]) + ColumnCodes(rows, cols[|cols| - 1])
  }

  /** A column lists a code exactly when some row holds it there; it lists at
      most one code per row. */
  lemma {:induction false} ColumnCodesMembers(rows: seq<GridRow>, col: string)
    ensures forall c :: c in ColumnCodes(rows, col) <==>
              c != "" && exists i :: 0 <= i < |rows| && CellAt(rows[i], col) == Text(c)
    ensures |ColumnCodes(rows, col)| <= |rows|
    decreases |rows|
  {
    if rows != [] {
      var front := rows[..|rows| - 1];
      ColumnCodesMembers(front, col);
      forall c | c != "" && (exists i :: 0 <= i < |rows| && CellAt(rows[i], col) == Text(c))
        ensures c in ColumnCodes(rows, col)
      {
        var i :| 0 <= i < |rows| && CellAt(rows[i], col) == Text(c);
        if i < |rows| - 1 {
          assert CellAt(front[i], col) == Text(c);
        }
      }
    }
  }

  /** The grid lists a code exactly when some row holds it in some of the given
      columns; it lists at most one code per cell. */
  lemma {:induction false} GridCodesMembers(rows: seq<GridRow>, cols: seq<string>)
    ensures forall c :: c in GridCodes(rows, cols) <==>
              c != "" && exists i, j :: 0 <= i < |rows| && 0 <= j < |cols| && CellAt(rows[i], cols[j]) == Text(c)
    decreases |cols|
  {
    if cols != [] {
      var front := cols[..|cols| - 1];
      var last := cols[|cols| - 1];
      GridCodesMembers(rows, front);
      ColumnCodesMembers(rows, last);
      forall c | c in GridCodes(rows, cols)
        ensures exists i, j :: 0 <= i < |rows| && 0 <= j < |cols| && CellAt(rows[i], cols[j]) == Text(c)
      {
        if c in GridCodes(rows, front) {
          var i, j :| 0 <= i < |rows| && 0 <= j < |front| && CellAt(rows[i], front[j]) == Text(c);
          assert cols[j] == front[j];
        } else {
          var i :| 0 <= i < |rows| && CellAt(rows[i], last) == Text(c);
          assert cols[|cols| - 1] == last;
        }
      }
      forall c | c != "" && exists i, j :: 0 <= i < |rows| && 0 <= j < |cols| && CellAt(rows[i], cols[j]) == Text(c)
        ensures c in GridCodes(rows, cols)
      {
        var i, j :| 0 <= i < |rows| && 0 <= j < |cols| && CellAt(rows[i], cols[j]) == Text(c);
        if j < |cols| - 1 {
          assert CellAt(rows[i], front[j]) == Text(c);
        }
      }
    }
  }

  /** The grid lists at most one code per cell. */
  lemma {:induction false} GridCodesBound(rows: seq<GridRow>, cols: seq<string>)
    ensures |GridCodes(rows, cols)| <= |rows| * |cols|
    decreases |cols|
  {
    if cols != [] {
      GridCodesBound(rows, cols[..|cols| - 1]);
      ColumnCodesMembers(rows, cols[|cols| - 1]);
      assert |rows| * |cols| == |rows| * (|cols| - 1) + |rows|;
    }
  }

  // ---------------------------------------------------------------------
  // Counting per code.
  // ---------------------------------------------------------------------

  /** `d.get(c, 0)`. */
  function Get(counts: map<string, int>, c: string): int {
    if c in counts then counts[c] else 0
  }

  /** The count per code after `d[c] = d.get(c, 0) + 1` for each code in turn. */
  function Tally(codes: seq<string>): map<string, int>
    decreases |codes|
  {
    if codes == [] then map[]
    else
      var counts := Tally(codes[..|codes| - 1]);
      var c := codes[|codes| - 1];
      counts[c := Get(counts, c) + 1]
  }

  /** The keys of a dict filled that way, in insertion order. */
  function FirstSeen(codes: seq<string>): seq<string>
    decreases |codes|
  {
    if codes == [] then []
    else
      var order := FirstSeen(codes[..|codes| - 1]);
      var c := codes[|codes| - 1];
      if c in order then order else order + [c]
  }

  /** The count of each code is the number of its occurrences, and only codes
      that occur have a count. */
  lemma {:induction false} TallyCounts(codes: seq<string>)
    ensures forall c :: c in Tally(codes) <==> c in codes
    ensures forall c :: c in Tally(codes) ==> Tally(codes)[c] == multiset(codes)[c]
    decreases |codes|
  {
    if codes != [] {
      var front := codes[..|codes| - 1];
      var last := codes[|codes| - 1];
      TallyCounts(front);
      assert codes == front + [last];
      assert multiset(codes) == multiset(front) + multiset{last};
    }
  }

  /** The insertion order lists every code that occurs, each once. */
  lemma {:induction false} FirstSeenOrder(codes: seq<string>)
    ensures forall c :: c in FirstSeen(codes) <==> c in codes
    ensures Distinct(FirstSeen(codes))
    decreases |codes|
  {
    if codes != [] {
      var front := codes[..|codes| - 1];
      FirstSeenOrder(front);
      assert codes == front + [codes[|codes| - 1]];
    }
  }

  // ---------------------------------------------------------------------
  // Sums over the counts.
  // ---------------------------------------------------------------------

  /** Σ count(c) · w(c) over the codes of `order`, in order. */
  function WeightedSum(order: seq<string>, counts: map<string, int>, w: string -> int): int
    decreases |order|
  {
    if order == [] then 0
    else
      var c := order[|order| - 1];
      WeightedSum(order[..|order| - 1], counts, w) + Get(counts, c) * w(c)
  }

  /** Σ w(c) over every occurrence in `codes`. */
  function OccurrenceSum(codes: seq<string>, w: string -> int): int
    decreases |codes|
  {
    if codes == [] then 0 else OccurrenceSum(codes[..|codes| - 1], w) + w(codes[|codes| - 1])
  }

  /** The weight that turns a weighted sum into a plain sum of counts. */
  const One: string -> int := _ => 1

  /** Counting every occurrence once gives the number of occurrences. */
  lemma {:induction false} OccurrenceSumOne(codes: seq<string>)
    ensures OccurrenceSum(codes, One) == |codes|
    decreases |codes|
  {
    if codes != [] {
      OccurrenceSumOne(codes[..|codes| - 1]);
    }
  }

  /** Changing the count of a code that `order` lists once changes the weighted
      sum by the change times its weight; changing one it does not list changes
      nothing. */
  lemma {:induction false} WeightedSumUpdate(order: seq<string>, counts: map<string, int>, w: string -> int,
                                             c: string, x: int)
    requires Distinct(order)
    ensures WeightedSum(order, counts[c := x], w)
         == WeightedSum(order, counts, w) + (if c in order then (x - Get(counts, c)) * w(c) else 0)
    decreases |order|
  {
    if order != [] {
      var front := order[..|order| - 1];
      var last := order[|order| - 1];
      WeightedSumUpdate(front, counts, w, c, x);
      assert order == front + [last];
      if last == c {
        assert c !in front;
        calc {
          Get(counts[c := x], c) * w(c);
          x * w(c);
          Get(counts, c) * w(c) + (x - Get(counts, c)) * w(c);
        }
      }
    }
  }

  /** A code has a count exactly when the insertion order lists it. */
  lemma {:induction false} TallyKeysFirstSeen(codes: seq<string>, c: string)
    ensures c in Tally(codes) <==> c in FirstSeen(codes)
    decreases |codes|
  {
    if codes != [] {
      TallyKeysFirstSeen(codes[..|codes| - 1], c);
    }
  }

  /** Weighting the counts over the insertion order is weighting every
      occurrence: `Σ count · w` over the dict equals `Σ w` over the cells. */
  lemma {:induction false} WeightedTally(codes: seq<string>, w: string -> int)
    ensures WeightedSum(FirstSeen(codes), Tally(codes), w) == OccurrenceSum(codes, w)
    decreases |codes|
  {
    if codes != [] {
      var front := codes[..|codes| - 1];
      var c := codes[|codes| - 1];
      var counts := Tally(front);
      var order := FirstSeen(front);
      WeightedTally(front, w);
      TallyKeysFirstSeen(front, c);
      FirstSeenOrder(front);
      var g := Get(counts, c);
      WeightedSumUpdate(order, counts, w, c, g + 1);
      if c !in order {
        assert FirstSeen(codes) == order + [c];
        assert (order + [c])[..|order|] == order;
      }
    }
  }

  // ---------------------------------------------------------------------
  // Active employees.
  // ---------------------------------------------------------------------

  /** The number of rows whose ESTADO is "Activo". */
  function ActiveCount(rows: seq<GridRow>): (n: nat)
    ensures n <= |rows|
    ensures n == 0 <==> forall i :: 0 <= i < |rows| ==> rows[i].estado != "Activo"
    ensures n == |rows| <==> forall i :: 0 <= i < |rows| ==> rows[i].estado == "Activo"
    decreases |rows|
  {
    if rows == [] then 0
    else
      var front := rows[..|rows| - 1];
      assert forall i :: 0 <= i < |front| ==> front[i] == rows[i];
      ActiveCount(front) + (if rows[|rows| - 1].estado == "Activo" then 1 else 0)
  }

  // ---------------------------------------------------------------------
  // The statistics.
  // ---------------------------------------------------------------------

  /** The hours of a code in the registry; 0 for a code it does not know. */
  function HoursOf(registry: map<string, ShiftInfo>, code: string): int {
    if code in registry then registry[code].horas else 0
  }

  /** The hours of each code, as a weight. */
  function HoursWeight(registry: map<string, ShiftInfo>): string -> int {
    c => HoursOf(registry, c)
  }

  /** The figures shown under the grid. */
  datatype Summary = Summary(totalEmpleados: int, turnosPorTipo: map<string, int>, totalTurnos: int,
                             horasTotales: int, empleadosActivos: int)

  /** One more row of a column adds that row's code, if it holds one. */
  lemma ColumnCodesStep(rows: seq<GridRow>, col: string, i: int)
    requires 0 <= i < |rows|
    ensures var cell := CellAt(rows[i], col);
            ColumnCodes(rows[..i + 1], col) == ColumnCodes(rows[..i], col) + (if HoldsShift(cell) then [cell.s] else [])
  {
    assert rows[..i + 1][..i] == rows[..i];
  }

  /** Counting one more code adds one to its count and, when it is new, puts it
      at the end of the insertion order. */
  lemma CountStep(seen: seq<string>, c: string)
    ensures Tally(seen + [c]) == Tally(seen)[c := Get(Tally(seen), c) + 1]
    ensures FirstSeen(seen + [c]) == if c in Tally(seen) then FirstSeen(seen) else FirstSeen(seen) + [c]
  {
    assert (seen + [c])[..|seen|] == seen;
    TallyKeysFirstSeen(seen, c);
  }

  /** The inner counting loop over one column: each cell holding a shift adds
      one to its code's count, a code seen for the first time joining the end
      of the insertion order. */
  method CountColumn(rows: seq<GridRow>, col: string, counts0: map<string, int>, order0: seq<string>,
                     ghost seen0: seq<string>)
    returns (counts: map<string, int>, order: seq<string>)
    requires counts0 == Tally(seen0) && order0 == FirstSeen(seen0)
    ensures counts == Tally(seen0 + ColumnCodes(rows, col))
    ensures order == FirstSeen(seen0 + ColumnCodes(rows, col))
  {
    counts, order := counts0, order0;
    ghost var seen := seen0;
    for i := 0 to |rows|
      invariant seen == seen0 + ColumnCodes(rows[..i], col)
      invariant counts == Tally(seen) && order == FirstSeen(seen)
    {
      var cell := CellAt(rows[i], col);
      ColumnCodesStep(rows, col, i);
      if cell.Text? && cell.s != "" {
        CountStep(seen, cell.s);
        if cell.s !in counts {
          order := order + [cell.s];
        }
        counts := counts[cell.s := Get(counts, cell.s) + 1];
        assert seen0 + ColumnCodes(rows[..i + 1], col) == seen + [cell.s];
        seen := seen + [cell.s];
      }
    }
    assert rows[..|rows|] == rows;
  }

  /** The counting loops: the count per code over the given columns, column by
      column, and the codes in the order they were first met. */
  method CountShifts(rows: seq<GridRow>, cols: seq<string>) returns (counts: map<string, int>, order: seq<string>)
    ensures counts == Tally(GridCodes(rows, cols))
    ensures order == FirstSeen(GridCodes(rows, cols))
  {
    counts, order := map[], [];
    for j := 0 to |cols|
      invariant counts == Tally(GridCodes(rows, cols[..j]))
      invariant order == FirstSeen(GridCodes(rows, cols[..j]))
    {
      assert cols[..j + 1][..j] == cols[..j];
      counts, order := CountColumn(rows, cols[j], counts, order, GridCodes(rows, cols[..j]));
    }
    assert cols[..|cols|] == cols;
  }

  /** `sum(turnos_por_tipo.values())`. */
  method SumCounts(order: seq<string>, counts: map<string, int>) returns (total: int)
    requires forall c :: c in order ==> c in counts
    ensures total == WeightedSum(order, counts, One)
  {
    total := 0;
    for k := 0 to |order|
      invariant total == WeightedSum(order[..k], counts, One)
    {
      assert order[..k + 1][..k] == order[..k];
      total := total + counts[order[k]];
    }
    assert order[..|order|] == order;
  }

  /** The hours loop: for each code in insertion order, its hours times its count. */
  method SumHours(order: seq<string>, counts: map<string, int>, registry: map<string, ShiftInfo>)
    returns (horas: int)
    requires forall c :: c in order ==> c in counts
    ensures horas == WeightedSum(order, counts, HoursWeight(registry))
  {
    horas := 0;
    for k := 0 to |order|
      invariant horas == WeightedSum(order[..k], counts, HoursWeight(registry))
    {
      assert order[..k + 1][..k] == order[..k];
      horas := horas + HoursOf(registry, order[k]) * counts[order[k]];
    }
    assert order[..|order|] == order;
  }

  /** mostrar_estadisticas_malla: nothing for an empty grid or one without day
      columns; otherwise the number of rows, the number of cells holding each
      code, the number of cells holding a shift, the hours of those cells and
      the number of active rows. */
  method GridStatistics(grid: Grid, registry: map<string, ShiftInfo>) returns (summary: Option<Summary>)
    ensures summary.None? <==> |grid.rows| == 0 || DayColumns(grid.columns) == []
    ensures summary.Some? ==>
              var codes := GridCodes(grid.rows, DayColumns(grid.columns));
              var s := summary.value;
              && s.totalEmpleados == |grid.rows|
              && (forall c :: c in s.turnosPorTipo <==> c in codes)
              && (forall c :: c in s.turnosPorTipo ==> s.turnosPorTipo[c] == multiset(codes)[c])
              && s.totalTurnos == |codes|
              && s.horasTotales == OccurrenceSum(codes, HoursWeight(registry))
              && s.empleadosActivos == ActiveCount(grid.rows)
  {
    if |grid.rows| == 0 {
      return None;
    }
    var rows := grid.rows;
    var dayColumns := DayColumns(grid.columns);
    if dayColumns == [] {
      return None;
    }
    var counts, order := CountShifts(rows, dayColumns);
    ghost var seen := GridCodes(rows, dayColumns);
    TallyCounts(seen);
    FirstSeenOrder(seen);
    var total := SumCounts(order, counts);
    WeightedTally(seen, One);
    OccurrenceSumOne(seen);
    var horas := SumHours(order, counts, registry);
    WeightedTally(seen, HoursWeight(registry));
    summary := Some(Summary(|rows|, counts, total, horas, ActiveCount(rows)));
  }
}
