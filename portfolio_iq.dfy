/** The rule engine `run_portfolioiq`: it finds the "Grant" header row, then
    for every later capital-expense row writes `(budget - actual) * rate` into
    column 10, where the rate comes from the nearest "F&A" annotation above
    the row or defaults to 60%. */
module PortfolioIQ {
  import opened Wrappers
  import opened Strings
  import opened Cells
  import opened RatePattern

  /** Cell values by (row, column), both counted from 1. A missing key is an
      empty cell. */
  type Grid = map<(int, int), Cell>

  function At(g: Grid, r: int, c: int): Cell {
    if (r, c) in g then g[(r, c)] else Empty
  }

  /** `DEFAULT_FA_RATE`. */
  const DefaultFaRate: real := 0.60
  const HeaderLabel: string := "Grant"
  /** Header rows are looked for in `range(1, 50)`. */
  const HeaderLimit: int := 50
  const LabelCol: int := 1
  const ClassCol: int := 3
  const BudgetCol: int := 4
  const ActualCol: int := 5
  const ResultCol: int := 10
  /** Annotations are looked for in columns `range(1, 8)`. */
  const LastAnnotationCol: int := 7
  const Lookback: int := 120

  // ---------------------------------------------------------------------
  // Header discovery
  // ---------------------------------------------------------------------

  predicate IsHeaderAt(g: Grid, r: int) {
    At(g, r, LabelCol) == Text(HeaderLabel)
  }

  /** The first row in `r..49` whose column 1 equals "Grant" exactly. */
  function HeaderFrom(g: Grid, r: int): (h: Option<int>)
    requires r >= 1
    ensures h.Some? ==> r <= h.value < HeaderLimit && IsHeaderAt(g, h.value)
    ensures h.Some? ==> forall q :: r <= q < h.value ==> !IsHeaderAt(g, q)
    ensures h.None? <==> forall q :: r <= q < HeaderLimit ==> !IsHeaderAt(g, q)
    decreases HeaderLimit - r
  {
    if r >= HeaderLimit then None
    else if IsHeaderAt(g, r) then Some(r)
    else HeaderFrom(g, r + 1)
  }

  /** The header row: the first of rows 1..49 whose column 1 equals "Grant"
      exactly, or None when there is no such row. */
  function HeaderRow(g: Grid): (h: Option<int>)
    ensures h.Some? ==> 1 <= h.value < HeaderLimit && IsHeaderAt(g, h.value)
    ensures h.Some? ==> forall q :: 1 <= q < h.value ==> !IsHeaderAt(g, q)
    ensures h.None? <==> forall q :: 1 <= q < HeaderLimit ==> !IsHeaderAt(g, q)
  {
    HeaderFrom(g, 1)
  }

  /** Only column 1 of rows 1..49 decides the header row. */
  lemma HeaderRowFrame(g: Grid, g': Grid)
    requires forall q :: 1 <= q < HeaderLimit ==> At(g, q, LabelCol) == At(g', q, LabelCol)
    ensures HeaderRow(g) == HeaderRow(g')
  {
    var h, h' := HeaderRow(g), HeaderRow(g');
    assert forall q :: 1 <= q < HeaderLimit ==> (IsHeaderAt(g, q) <==> IsHeaderAt(g', q));
  }

  // ---------------------------------------------------------------------
  // Rate resolution: find_fa_rate
  // ---------------------------------------------------------------------

  /** The lowest row `find_fa_rate` examines for a target row: the stop
      `max(1, row - 120)` of its descending range is exclusive, so the scan
      ends one row above it. Row 1 is never examined, nor any row
      `Lookback` or more rows above the target. */
  function WindowLow(row: int): (lo: int)
    ensures lo >= 2 && row - lo < Lookback
  {
    (if row - Lookback > 1 then row - Lookback else 1) + 1
  }

  /** Cell (r, c) is one that `find_fa_rate(ws, row)` may examine. */
  ghost predicate InWindow(row: int, r: int, c: int) {
    WindowLow(row) <= r <= row - 1 && 1 <= c <= LastAnnotationCol
  }

  /** The scan visits rows from the nearest upwards, and columns from left
      to right within a row. */
  ghost predicate ScannedBefore(r1: int, c1: int, r2: int, c2: int) {
    r1 > r2 || (r1 == r2 && c1 < c2)
  }

  predicate IsAnnotationAt(g: Grid, r: int, c: int) {
    IsFaAnnotation(At(g, r, c))
  }

  /** The first column in `c..7` of row `r` holding an F&A annotation. */
  function ScanColumns(g: Grid, r: int, c: int): (s: Option<int>)
    requires c >= 1
    ensures s.Some? ==> c <= s.value <= LastAnnotationCol && IsAnnotationAt(g, r, s.value)
    decreases LastAnnotationCol + 1 - c
  {
    if c > LastAnnotationCol then None
    else if IsAnnotationAt(g, r, c) then Some(c)
    else ScanColumns(g, r, c + 1)
  }

  /** The first annotation cell in scan order among rows `r` down to `lo`. */
  function ScanRows(g: Grid, r: int, lo: int): (s: Option<(int, int)>)
    ensures s.Some? ==> lo <= s.value.0 <= r && 1 <= s.value.1 <= LastAnnotationCol
                        && IsAnnotationAt(g, s.value.0, s.value.1)
    decreases r + 1 - lo
  {
    if r < lo then None
    else match ScanColumns(g, r, 1)
      case Some(c) => Some((r, c))
      case None => ScanRows(g, r - 1, lo)
  }

  /** The column scan finds the leftmost annotation of the row from `c`
      on, and finds none exactly when there is none. */
  lemma {:induction false} ScanColumnsSpec(g: Grid, r: int, c: int)
    requires c >= 1
    ensures var s := ScanColumns(g, r, c);
      (s.Some? ==> c <= s.value <= LastAnnotationCol && IsAnnotationAt(g, r, s.value)
                   && forall c' :: c <= c' < s.value ==> !IsAnnotationAt(g, r, c'))
      && (s.None? <==> forall c' :: c <= c' <= LastAnnotationCol ==> !IsAnnotationAt(g, r, c'))
    decreases LastAnnotationCol + 1 - c
  {
    if c <= LastAnnotationCol && !IsAnnotationAt(g, r, c) {
      ScanColumnsSpec(g, r, c + 1);
    }
  }

  /** The row scan finds the first annotation in scan order among rows `r`
      down to `lo`, and finds none exactly when there is none. */
  lemma {:induction false} ScanRowsSpec(g: Grid, r: int, lo: int)
    ensures var s := ScanRows(g, r, lo);
      (s.Some? ==> lo <= s.value.0 <= r && 1 <= s.value.1 <= LastAnnotationCol
                   && IsAnnotationAt(g, s.value.0, s.value.1)
                   && (forall r', c' :: s.value.0 < r' <= r && 1 <= c' <= LastAnnotationCol ==> !IsAnnotationAt(g, r', c'))
                   && (forall c' :: 1 <= c' < s.value.1 ==> !IsAnnotationAt(g, s.value.0, c')))
      && (s.None? <==> forall r', c' :: lo <= r' <= r && 1 <= c' <= LastAnnotationCol ==> !IsAnnotationAt(g, r', c'))
    decreases r + 1 - lo
  {
    if r >= lo {
      ScanColumnsSpec(g, r, 1);
      if ScanColumns(g, r, 1).None? {
        ScanRowsSpec(g, r - 1, lo);
      }
    }
  }

  /** The cell whose text `find_fa_rate` hands to `parse_fa_rate`: an
      annotation inside the window of the target row. */
  function FirstAnnotation(g: Grid, row: int): (f: Option<(int, int)>)
    ensures f.Some? ==> InWindow(row, f.value.0, f.value.1) && IsAnnotationAt(g, f.value.0, f.value.1)
  {
    ScanRows(g, row - 1, WindowLow(row))
  }

  /** `find_fa_rate(ws, row)`: the rate parsed from the first annotation in
      the window, even when that annotation holds no percentage. */
  function FaRate(g: Grid, row: int): (rate: Option<real>)
    ensures rate.Some? ==> 0.0 <= rate.value <= 9.99
  {
    match FirstAnnotation(g, row)
    case None => None
    case Some((r, c)) => ParseFaRate(At(g, r, c))
  }

  /** The annotation found lies in the window, and no cell before it in scan
      order is an annotation. */
  lemma FirstAnnotationFound(g: Grid, row: int, r: int, c: int)
    requires FirstAnnotation(g, row) == Some((r, c))
    ensures InWindow(row, r, c) && IsAnnotationAt(g, r, c)
    ensures forall r', c' :: InWindow(row, r', c') && ScannedBefore(r', c', r, c) ==> !IsAnnotationAt(g, r', c')
  {
    ScanRowsSpec(g, row - 1, WindowLow(row));
  }

  /** No annotation is found exactly when the window holds none. */
  lemma FirstAnnotationNone(g: Grid, row: int)
    ensures FirstAnnotation(g, row) == None <==> forall r, c :: InWindow(row, r, c) ==> !IsAnnotationAt(g, r, c)
  {
    ScanRowsSpec(g, row - 1, WindowLow(row));
  }

  /** An annotation in the window with none before it in scan order is the
      one found. */
  lemma FirstAnnotationIsFirst(g: Grid, row: int, r: int, c: int)
    requires InWindow(row, r, c) && IsAnnotationAt(g, r, c)
    requires forall r', c' :: InWindow(row, r', c') && ScannedBefore(r', c', r, c) ==> !IsAnnotationAt(g, r', c')
    ensures FirstAnnotation(g, row) == Some((r, c))
  {
    FirstAnnotationNone(g, row);
    var f := FirstAnnotation(g, row);
    assert f.Some?;
    var (r2, c2) := f.value;
    FirstAnnotationFound(g, row, r2, c2);
  }

  /** Only the window decides the rate: cells in row 1, in rows 120 or more
      above the target, at or below the target row, or right of column 7
      are never consulted. */
  lemma FaRateFrame(g: Grid, g': Grid, row: int)
    requires forall r, c :: InWindow(row, r, c) ==> At(g, r, c) == At(g', r, c)
    ensures FaRate(g, row) == FaRate(g', row)
  {
    FirstAnnotationNone(g, row);
    FirstAnnotationNone(g', row);
    match FirstAnnotation(g, row)
    case None =>
    case Some((r, c)) =>
      FirstAnnotationFound(g, row, r, c);
      FirstAnnotationIsFirst(g', row, r, c);
  }

  /** An annotation 119 rows above the target is found. */
  lemma AnnotationAt119Found(row: int)
    requires row >= 121
    ensures FaRate(map[(row - 119, 1) := Text("F&A 50%")], row) == Some(0.5)
  {
    var g := map[(row - 119, 1) := Text("F&A 50%")];
    ParseFaRateFifty();
    FirstAnnotationIsFirst(g, row, row - 119, 1);
  }

  /** An annotation 120 rows above the target is missed, and so is one in
      row 1, however near. */
  lemma AnnotationAt120Missed(row: int, c: int)
    ensures FaRate(map[(row - 120, c) := Text("F&A 50%")], row) == None
    ensures FaRate(map[(1, c) := Text("F&A 50%")], row) == None
  {
    FirstAnnotationNone(map[(row - 120, c) := Text("F&A 50%")], row);
    FirstAnnotationNone(map[(1, c) := Text("F&A 50%")], row);
  }

  /** The search stops at the nearest annotation even when it holds no
      percentage: a rate further up is not used. */
  lemma FirstAnnotationDecides(row: int)
    requires row >= 4
    ensures FaRate(map[(row - 1, 2) := Text("F&A TBD"), (row - 2, 1) := Text("F&A 50%")], row) == None
  {
    var g := map[(row - 1, 2) := Text("F&A TBD"), (row - 2, 1) := Text("F&A 50%")];
    ParseFaRatePending();
    assert At(g, row - 1, 2) == Text("F&A TBD");
    FirstAnnotationIsFirst(g, row, row - 1, 2);
  }

  // ---------------------------------------------------------------------
  // The rule for one row
  // ---------------------------------------------------------------------

  /** `"CAPITAL" in str(ws.cell(r, 3).value).upper()`. */
  predicate IsCapitalRow(g: Grid, r: int) {
    IsCapital(At(g, r, ClassCol))
  }

  /** `find_fa_rate(ws, r) or DEFAULT_FA_RATE`: a found non-zero rate, else
      the default; a found rate of 0% also gives the default. */
  function EffectiveRate(g: Grid, r: int): (rate: real)
    ensures 0.0 < rate <= 9.99
    ensures FaRate(g, r).Some? && FaRate(g, r).value != 0.0 ==> rate == FaRate(g, r).value
    ensures FaRate(g, r).None? || FaRate(g, r) == Some(0.0) ==> rate == DefaultFaRate
  {
    match FaRate(g, r)
    case Some(x) => if x != 0.0 then x else DefaultFaRate
    case None => DefaultFaRate
  }

  /** `impact = (budget - actual) * rate`. With a positive rate the impact
      is positive exactly when the budget exceeds the actual, and zero
      exactly when they are equal. */
  function ImpactOf(budget: real, actual: real, rate: real): (impact: real)
    ensures rate > 0.0 ==> (impact > 0.0 <==> budget > actual) && (impact == 0.0 <==> budget == actual)
  {
    (budget - actual) * rate
  }

  /** The impact of row `r`: its budget less its actual, both read leniently,
      times its effective rate. It is positive exactly for an underspent
      row, and zero exactly when budget and actual read the same. */
  function Impact(g: Grid, r: int): (impact: real)
    ensures impact > 0.0 <==> ToNumber(At(g, r, BudgetCol)) > ToNumber(At(g, r, ActualCol))
    ensures impact == 0.0 <==> ToNumber(At(g, r, BudgetCol)) == ToNumber(At(g, r, ActualCol))
  {
    ImpactOf(ToNumber(At(g, r, BudgetCol)), ToNumber(At(g, r, ActualCol)), EffectiveRate(g, r))
  }

  /** A row's classification and impact depend on no value in column 10, so
      writing column 10 of any rows, in any order, changes neither. */
  lemma RuleIgnoresResultColumn(g: Grid, g': Grid, r: int)
    requires forall q, c :: c != ResultCol ==> At(g, q, c) == At(g', q, c)
    ensures IsCapitalRow(g, r) == IsCapitalRow(g', r)
    ensures Impact(g, r) == Impact(g', r)
  {
    forall q, c | InWindow(r, q, c) ensures At(g, q, c) == At(g', q, c) {
    }
    FaRateFrame(g, g', r);
    assert At(g, r, ClassCol) == At(g', r, ClassCol);
    assert At(g, r, BudgetCol) == At(g', r, BudgetCol);
    assert At(g, r, ActualCol) == At(g', r, ActualCol);
  }

  // ---------------------------------------------------------------------
  // The whole run
  // ---------------------------------------------------------------------

  /** The rows of `lo..hi-1` that are capital-expense lines; none when the
      range is empty. */
  ghost function CapitalRows(g: Grid, lo: int, hi: int): (rows: set<int>)
    ensures forall r :: r in rows ==> lo <= r < hi
    ensures hi <= lo ==> rows == {}
  {
    set r | lo <= r < hi && IsCapitalRow(g, r)
  }

  /** The column-10 cells the run writes for rows `lo..hi-1`, row by row. */
  ghost function Writes(g: Grid, lo: int, hi: int): (w: Grid)
    ensures forall k :: k in w ==> k.1 == ResultCol && lo <= k.0 < hi
    decreases hi - lo
  {
    if hi <= lo then map[]
    else
      var w := Writes(g, lo, hi - 1);
      if IsCapitalRow(g, hi - 1) then w[(hi - 1, ResultCol) := Num(Impact(g, hi - 1))] else w
  }

  datatype RunError = HeaderNotFound

  /** What a successful run returns and leaves in the worksheet. */
  datatype Report = Report(updated: nat, cells: Grid)

  /** The result of `run_portfolioiq` on a worksheet whose last row is
      `maxRow`: an error when there is no header, and otherwise the count of
      capital rows after the header and the grid with their impacts written. */
  ghost function RunOutcome(g: Grid, maxRow: int): (outcome: Result<Report, RunError>)
    ensures outcome.Failure? <==> HeaderRow(g).None?
    ensures outcome.Success? ==> forall k :: k in outcome.value.cells && k !in g ==> k.1 == ResultCol
  {
    match HeaderRow(g)
    case None => Failure(HeaderNotFound)
    case Some(h) => Success(Report(|CapitalRows(g, h + 1, maxRow + 1)|, g + Writes(g, h + 1, maxRow + 1)))
  }

  /** The cells written for rows `lo..hi-1` are column 10 of the capital
      rows, holding their impacts. */
  lemma {:induction false} AtWrites(g: Grid, lo: int, hi: int, r: int, c: int)
    ensures At(g + Writes(g, lo, hi), r, c) ==
      if c == ResultCol && lo <= r < hi && IsCapitalRow(g, r) then Num(Impact(g, r)) else At(g, r, c)
    decreases hi - lo
  {
    if hi > lo {
      AtWrites(g, lo, hi - 1, r, c);
      var w := Writes(g, lo, hi - 1);
      assert Writes(g, lo, hi) == if IsCapitalRow(g, hi - 1) then w[(hi - 1, ResultCol) := Num(Impact(g, hi - 1))] else w;
    }
  }

  lemma CapitalRowsStep(g: Grid, lo: int, hi: int)
    requires lo <= hi
    ensures CapitalRows(g, lo, hi + 1) ==
      if IsCapitalRow(g, hi) then CapitalRows(g, lo, hi) + {hi} else CapitalRows(g, lo, hi)
  {
  }

  lemma WritesStep(g: Grid, lo: int, hi: int)
    requires lo <= hi
    ensures Writes(g, lo, hi + 1) ==
      if IsCapitalRow(g, hi) then Writes(g, lo, hi)[(hi, ResultCol) := Num(Impact(g, hi))] else Writes(g, lo, hi)
  {
  }

  /** One more row of the run: a capital row adds its column-10 write to the
      grid, any other row leaves the grid as it is. */
  lemma RunStep(g: Grid, lo: int, r: int)
    requires lo <= r
    ensures g + Writes(g, lo, r + 1) ==
      if IsCapitalRow(g, r) then (g + Writes(g, lo, r))[(r, ResultCol) := Num(Impact(g, r))] else g + Writes(g, lo, r)
  {
    WritesStep(g, lo, r);
  }

  /** Part way through the run, row `r` reads as it did in the original
      grid: its classification, its budget and actual cells and its rate. */
  lemma RuleSeesOriginal(g: Grid, lo: int, hi: int, r: int)
    ensures var g1 := g + Writes(g, lo, hi);
      IsCapitalRow(g1, r) == IsCapitalRow(g, r)
      && At(g1, r, BudgetCol) == At(g, r, BudgetCol) && At(g1, r, ActualCol) == At(g, r, ActualCol)
      && FaRate(g1, r) == FaRate(g, r) && Impact(g1, r) == Impact(g, r)
  {
    var g1 := g + Writes(g, lo, hi);
    forall q, c | c != ResultCol ensures At(g1, q, c) == At(g, q, c) {
      AtWrites(g, lo, hi, q, c);
    }
    RuleIgnoresResultColumn(g1, g, r);
    forall q, c | InWindow(r, q, c) ensures At(g1, q, c) == At(g, q, c) {
    }
    FaRateFrame(g1, g, r);
    AtWrites(g, lo, hi, r, BudgetCol);
    AtWrites(g, lo, hi, r, ActualCol);
  }

  lemma WritesEmpty(g: Grid, lo: int, hi: int)
    requires hi <= lo
    ensures CapitalRows(g, lo, hi) == {} && Writes(g, lo, hi) == map[]
  {
  }

  /** The count a run returns equals the number of cells it writes. */
  lemma {:induction false} CountIsWrites(g: Grid, lo: int, hi: int)
    ensures |CapitalRows(g, lo, hi)| == |Writes(g, lo, hi)|
    decreases hi - lo
  {
    if hi <= lo {
      WritesEmpty(g, lo, hi);
    } else {
      CountIsWrites(g, lo, hi - 1);
      WritesStep(g, lo, hi - 1);
      CapitalRowsStep(g, lo, hi - 1);
      assert hi - 1 !in CapitalRows(g, lo, hi - 1);
      assert (hi - 1, ResultCol) !in Writes(g, lo, hi - 1);
    }
  }

  /** Without a header row the run fails, and it fails only then. */
  lemma RunFailsWithoutHeader(g: Grid, maxRow: int)
    ensures RunOutcome(g, maxRow).Failure? <==> forall q :: 1 <= q < HeaderLimit ==> !IsHeaderAt(g, q)
  {
  }

  /** With header row `h` the run counts and writes the capital rows from
      `h + 1` to `maxRow`. */
  lemma RunOutcomeFound(g: Grid, maxRow: int, h: int)
    requires HeaderRow(g) == Some(h)
    ensures RunOutcome(g, maxRow) == Success(Report(|CapitalRows(g, h + 1, maxRow + 1)|, g + Writes(g, h + 1, maxRow + 1)))
  {
  }

  /** After a successful run, column 10 of each capital row after the header
      holds that row's impact, and every other cell is as it was. */
  lemma RunWritesOnlyResultColumn(g: Grid, maxRow: int, r: int, c: int)
    requires RunOutcome(g, maxRow).Success?
    ensures var h := HeaderRow(g).value;
      At(RunOutcome(g, maxRow).value.cells, r, c) ==
        if c == ResultCol && h < r <= maxRow && IsCapitalRow(g, r) then Num(Impact(g, r)) else At(g, r, c)
  {
    AtWrites(g, HeaderRow(g).value + 1, maxRow + 1, r, c);
  }

  /** Grids that agree on the classification and the impact of every row
      produce the same writes. */
  lemma {:induction false} WritesFrame(g: Grid, g': Grid, lo: int, hi: int)
    requires forall r :: IsCapitalRow(g, r) == IsCapitalRow(g', r) && Impact(g, r) == Impact(g', r)
    ensures CapitalRows(g, lo, hi) == CapitalRows(g', lo, hi)
    ensures Writes(g, lo, hi) == Writes(g', lo, hi)
    decreases hi - lo
  {
    if hi > lo {
      WritesFrame(g, g', lo, hi - 1);
    }
  }

  /** Writing the same cells a second time changes nothing. */
  lemma MergeTwice(a: Grid, b: Grid)
    ensures (a + b) + b == a + b
  {
  }

  /** Running the engine on its own output finds the same header, the same
      count and leaves the grid as it is. */
  lemma RunIdempotent(g: Grid, maxRow: int)
    requires RunOutcome(g, maxRow).Success?
    ensures RunOutcome(RunOutcome(g, maxRow).value.cells, maxRow) == RunOutcome(g, maxRow)
  {
    var h := HeaderRow(g).value;
    var lo, hi := h + 1, maxRow + 1;
    var g1 := g + Writes(g, lo, hi);
    WritesKeepRule(g, lo, hi);
    WritesFrame(g, g1, lo, hi);
    MergeTwice(g, Writes(g, lo, hi));
  }

  /** The writes of a run leave the header row, and the classification and
      impact of every row, as they were. */
  lemma WritesKeepRule(g: Grid, lo: int, hi: int)
    ensures var g1 := g + Writes(g, lo, hi);
      HeaderRow(g1) == HeaderRow(g)
      && forall r :: IsCapitalRow(g, r) == IsCapitalRow(g1, r) && Impact(g, r) == Impact(g1, r)
  {
    var g1 := g + Writes(g, lo, hi);
    forall q, c | c != ResultCol ensures At(g, q, c) == At(g1, q, c) {
      AtWrites(g, lo, hi, q, c);
    }
    HeaderRowFrame(g, g1);
    forall r ensures IsCapitalRow(g, r) == IsCapitalRow(g1, r) && Impact(g, r) == Impact(g1, r) {
      RuleIgnoresResultColumn(g, g1, r);
    }
  }

  // ---------------------------------------------------------------------
  // The worksheet
  // ---------------------------------------------------------------------

  /** The active worksheet: its cells, which the engine updates in place,
      and `max_row`, the last row in use. */
  class Worksheet {
    var cells: Grid
    const maxRow: int

    constructor (cells: Grid, maxRow: int)
      ensures this.cells == cells && this.maxRow == maxRow
    {
      this.cells := cells;
      this.maxRow := maxRow;
    }

    /** `ws.cell(r, c).value`: a cell never set reads as empty. */
    function Get(r: int, c: int): (v: Cell)
      reads this
      ensures (r, c) !in cells ==> v == Empty
      ensures (r, c) in cells ==> v == cells[(r, c)]
    {
      At(cells, r, c)
    }

    /** `ws.cell(r, c).value = v`. */
    method Set(r: int, c: int, v: Cell)
      modifies this
      ensures cells == old(cells)[(r, c) := v]
    {
      cells := cells[(r, c) := v];
    }

    /** `find_fa_rate(ws, row)`: rows `row - 1` down to `max(1, row - 120) + 1`,
        columns 1 to 7 in each, returning at the first annotation. */
    method FindFaRate(row: int) returns (rate: Option<real>)
      ensures rate == FaRate(cells, row)
    {
      var stop := if row - Lookback > 1 then row - Lookback else 1;
      var r := row - 1;
      while r > stop
        invariant r <= row - 1 || r <= stop
        invariant FirstAnnotation(cells, row) == ScanRows(cells, r, stop + 1)
        decreases r - stop
      {
        for c := 1 to LastAnnotationCol + 1
          invariant ScanColumns(cells, r, 1) == ScanColumns(cells, r, c)
        {
          var v := Get(r, c);
          if IsFaAnnotation(v) {
            return ParseFaRate(v);
          }
        }
        r := r - 1;
      }
      return None;
    }

    /** The header search of `run_portfolioiq`: rows 1 to 49, the first
        whose column 1 is exactly "Grant". */
    method FindHeader() returns (headerRow: Option<int>)
      ensures headerRow == HeaderRow(cells)
    {
      headerRow := None;
      for r := 1 to HeaderLimit
        invariant headerRow.None? && HeaderRow(cells) == HeaderFrom(cells, r)
      {
        if Get(r, LabelCol) == Text(HeaderLabel) {
          headerRow := Some(r);
          break;
        }
      }
    }

    /** One pass of the row loop of `run_portfolioiq`: a capital row gets
        its impact in column 10 and adds one to the count; any other row is
        left alone. */
    method UpdateRow(ghost g0: Grid, lo: int, r: int, updated: nat) returns (count: nat)
      requires lo <= r
      requires cells == g0 + Writes(g0, lo, r) && updated == |CapitalRows(g0, lo, r)|
      modifies this
      ensures cells == g0 + Writes(g0, lo, r + 1) && count == |CapitalRows(g0, lo, r + 1)|
    {
      RuleSeesOriginal(g0, lo, r, r);
      RunStep(g0, lo, r);
      CapitalRowsStep(g0, lo, r);
      count := updated;
      var sclass := Get(r, ClassCol);
      if IsCapital(sclass) {
        var budget := ToNumber(Get(r, BudgetCol));
        var actual := ToNumber(Get(r, ActualCol));
        var fa := FindFaRate(r);
        var rate := if fa.Some? && fa.value != 0.0 then fa.value else DefaultFaRate;
        var impact := ImpactOf(budget, actual, rate);
        assert rate == EffectiveRate(g0, r);
        Set(r, ResultCol, Num(impact));
        assert r !in CapitalRows(g0, lo, r);
        count := count + 1;
      }
    }

    /** The row loop of `run_portfolioiq`: rows `h + 1` to `max_row`, each
        capital row getting its impact in column 10. Returns the number of
        rows written. */
    method UpdateRows(h: int) returns (updated: nat)
      modifies this
      ensures cells == old(cells) + Writes(old(cells), h + 1, maxRow + 1)
      ensures updated == |CapitalRows(old(cells), h + 1, maxRow + 1)|
    {
      ghost var g0 := cells;
      var lastRow := maxRow;
      updated := 0;
      var r := h + 1;
      WritesEmpty(g0, r, r);
      assert g0 + map[] == g0;
      while r <= lastRow
        invariant h + 1 <= r && (r <= lastRow + 1 || r == h + 1)
        invariant cells == g0 + Writes(g0, h + 1, r)
        invariant updated == |CapitalRows(g0, h + 1, r)|
        decreases lastRow + 1 - r
      {
        updated := UpdateRow(g0, h + 1, r, updated);
        r := r + 1;
      }
      if r != lastRow + 1 {
        WritesEmpty(g0, h + 1, lastRow + 1);
      }
    }

    /** `run_portfolioiq(ws)`: fails when no header row is found, leaving the
        worksheet unchanged; otherwise writes the impact of every capital row
        after the header into column 10 and returns how many rows it wrote. */
    method Run() returns (result: Result<nat, RunError>)
      modifies this
      ensures match RunOutcome(old(cells), maxRow)
        case Failure(e) => result == Failure(e) && cells == old(cells)
        case Success(report) => result == Success(report.updated) && cells == report.cells
    {
      var headerRow := FindHeader();
      if headerRow.None? {
        return Failure(HeaderNotFound);
      }
      var h := headerRow.value;
      RunOutcomeFound(cells, maxRow, h);
      var updated := UpdateRows(h);
      return Success(updated);
    }
  }
}
