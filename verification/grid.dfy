/** The grid (game.h:345-448): `rows x cols` cells of one variant, each
    wired to its eight toroidal neighbours, with the batch operations the
    driver calls: seeding, one synchronous generation, and reset. Cells are
    held by value and neighbours are found by index, in place of
    pointers. */
module Grids {
  import opened Outcomes
  import opened CellStates
  import opened Cells
  import RuleStrings
  import Multispecies
  import Torus

  /** `GameMode` of the configuration. */
  datatype GameMode = Basic | Aging | RuleBased | Custom

  /** The fields of the configuration the core reads. */
  datatype Config = Config(numRows: int, numCols: int, gameMode: GameMode, gameRule: string)

  /** Which cell class the grid is built of; the rule-based class carries the
      rule its constructor parsed. */
  datatype Variant = BasicCells | AgingCells | RuleBasedCells(rule: RuleStrings.Rule) | CustomCells

  datatype Grid = Grid(variant: Variant, rows: nat, cols: nat, cells: seq<seq<Cell>>)

  /** A seed: a zero-based position and the state to force there. */
  datatype CellCoord = CellCoord(row: int, col: int, state: State)

  /** `vector::at` refusing a position outside the grid. */
  datatype GridError = OutOfRange(row: int, col: int)

  predicate Valid(g: Grid)
  {
    |g.cells| == g.rows && forall i :: 0 <= i < g.rows ==> |g.cells[i]| == g.cols
  }

  predicate InRange(g: Grid, i: int, j: int)
  {
    0 <= i < g.rows && 0 <= j < g.cols
  }

  predicate SameShape(g: Grid, h: Grid)
  {
    Valid(h) && h.variant == g.variant && h.rows == g.rows && h.cols == g.cols
  }

  /** `isAlive` of the grid's cell class. A dead cell is never live; Alive
      is live in every class except Custom, and Old only in the Aging and
      Custom classes. */
  predicate IsAlive(v: Variant, s: State)
    ensures IsAlive(v, s) ==> s != Dead
    ensures s == Alive ==> (IsAlive(v, s) <==> !v.CustomCells?)
    ensures s == Old ==> (IsAlive(v, s) <==> v.AgingCells? || v.CustomCells?)
  {
    match v
    case BasicCells => BasicAlive(s)
    case AgingCells => AgingAlive(s)
    case RuleBasedCells(_) => BasicAlive(s)
    case CustomCells => Multispecies.IsAlive(s)
  }

  /** The constructor: non-positive dimensions give an empty grid; every
      cell starts dead with nothing staged and age zero; a rule-based grid
      parses its rule string, which has passed the format guard. */
  function NewGrid(cfg: Config): (g: Grid)
    requires cfg.gameMode == RuleBased ==> RuleStrings.WellFormed(cfg.gameRule)
    ensures Valid(g)
    ensures g.rows == (if cfg.numRows > 0 then cfg.numRows else 0)
    ensures g.cols == (if cfg.numCols > 0 then cfg.numCols else 0)
    ensures forall i, j :: InRange(g, i, j) ==> g.cells[i][j] == Fresh
    ensures cfg.gameMode == Basic <==> g.variant == BasicCells
    ensures cfg.gameMode == Aging <==> g.variant == AgingCells
    ensures cfg.gameMode == RuleBased <==> g.variant.RuleBasedCells?
    ensures cfg.gameMode == Custom <==> g.variant == CustomCells
    ensures cfg.gameMode == RuleBased ==> g.variant.rule == RuleStrings.ParseRule(cfg.gameRule)
  {
    var rows: nat := if cfg.numRows > 0 then cfg.numRows else 0;
    var cols: nat := if cfg.numCols > 0 then cfg.numCols else 0;
    var variant :=
      match cfg.gameMode
      case Basic => BasicCells
      case Aging => AgingCells
      case RuleBased => RuleBasedCells(RuleStrings.ParseRule(cfg.gameRule))
      case Custom => CustomCells;
    Grid(variant, rows, cols, seq(rows, i => seq(cols, j => Fresh)))
  }

  /** `getCell`: the cell at a position, or the error `at` raises. */
  function GetCell(g: Grid, i: int, j: int): (r: Result<Cell, GridError>)
    requires Valid(g)
    ensures r.Ok? <==> InRange(g, i, j)
    ensures r.Ok? ==> r.value == g.cells[i][j]
    ensures r.Err? ==> r.error == OutOfRange(i, j)
  {
    if InRange(g, i, j) then Ok(g.cells[i][j]) else Err(OutOfRange(i, j))
  }

  /** The committed states of the eight neighbours bound to `(i, j)`, in
      wiring order. */
  function NeighbourStates(g: Grid, i: int, j: int): (ns: seq<State>)
    requires Valid(g) && InRange(g, i, j)
    ensures |ns| == 8
    ensures forall k :: 0 <= k < 8 ==>
      ns[k] == g.cells[(i + Torus.RowOffset[k]) % g.rows][(j + Torus.ColOffset[k]) % g.cols].state
  {
    var ps := Torus.Neighbours(g.rows, g.cols, i, j);
    seq(8, k requires 0 <= k < 8 => g.cells[ps[k].0][ps[k].1].state)
  }

  /** The virtual `computeNextState`: dispatch on the cell class. It never
      changes the committed state. */
  function ComputeNext(v: Variant, c: Cell, ns: seq<State>): (r: Cell)
    ensures r.state == c.state
  {
    match v
    case BasicCells => BasicNext(c, ns)
    case AgingCells => AgingNext(c, ns)
    case RuleBasedCells(rule) => RuleNext(rule, c, ns)
    case CustomCells => Multispecies.CustomNext(c, ns)
  }

  /** The first phase of a generation: every cell computes its staged state
      from the committed states around it. No committed state changes. */
  function ComputePhase(g: Grid): (h: Grid)
    requires Valid(g)
    ensures SameShape(g, h)
    ensures forall i, j :: InRange(g, i, j) ==>
      h.cells[i][j] == ComputeNext(g.variant, g.cells[i][j], NeighbourStates(g, i, j))
    ensures forall i, j :: InRange(g, i, j) ==> h.cells[i][j].state == g.cells[i][j].state
  {
    g.(cells := seq(g.rows, i requires 0 <= i < g.rows =>
      seq(g.cols, j requires 0 <= j < g.cols =>
        ComputeNext(g.variant, g.cells[i][j], NeighbourStates(g, i, j)))))
  }

  /** The second phase: every cell commits its staged state. */
  function CommitPhase(g: Grid): (h: Grid)
    requires Valid(g)
    ensures SameShape(g, h)
    ensures forall i, j :: InRange(g, i, j) ==> h.cells[i][j] == Commit(g.cells[i][j])
  {
    g.(cells := seq(g.rows, i requires 0 <= i < g.rows =>
      seq(g.cols, j requires 0 <= j < g.cols => Commit(g.cells[i][j]))))
  }

  /** `updateCells`: one synchronous generation. Each cell's new state is the
      one its variant's rule gives from its own pre-step cell and the
      pre-step states of its eight neighbours; staged states and ages are
      those the computation left. */
  function UpdateCells(g: Grid): (h: Grid)
    requires Valid(g)
    ensures SameShape(g, h)
    ensures forall i, j :: InRange(g, i, j) ==>
      var c := ComputeNext(g.variant, g.cells[i][j], NeighbourStates(g, i, j));
      h.cells[i][j] == Cell(c.nextState, c.nextState, c.age)
  {
    CommitPhase(ComputePhase(g))
  }

  /** `n` generations. */
  function Run(g: Grid, n: nat): (h: Grid)
    requires Valid(g)
    ensures SameShape(g, h)
    decreases n
  {
    if n == 0 then g else Run(UpdateCells(g), n - 1)
  }

  /** The outcome of a generation at one cell depends on nothing but that
      cell and its neighbours' committed states before the step. */
  lemma UpdateIsLocal(g1: Grid, g2: Grid, i: int, j: int)
    requires Valid(g1) && SameShape(g1, g2) && InRange(g1, i, j)
    requires g1.cells[i][j] == g2.cells[i][j]
    requires forall k :: 0 <= k < 8 ==>
      var p := Torus.Neighbour(g1.rows, g1.cols, i, j, k);
      g1.cells[p.0][p.1].state == g2.cells[p.0][p.1].state
    ensures UpdateCells(g1).cells[i][j] == UpdateCells(g2).cells[i][j]
  {
    assert NeighbourStates(g1, i, j) == NeighbourStates(g2, i, j);
  }

  /** On a Basic grid a cell is alive after a generation exactly when three
      of its wrapped neighbours were alive, or two were and it was. */
  lemma BasicGeneration(g: Grid, i: int, j: int)
    requires Valid(g) && g.variant == BasicCells && InRange(g, i, j)
    ensures var live := CountIf(NeighbourStates(g, i, j), BasicAlive);
      UpdateCells(g).cells[i][j].state == Alive <==>
        live == 3 || (g.cells[i][j].state == Alive && live == 2)
  {
  }

  // Traversal order of the first phase.

  /** One `computeNextState` call made in place on the cell at `(i, j)`,
      reading the grid as it stands. */
  function ComputeAt(g: Grid, i: int, j: int): (h: Grid)
    requires Valid(g) && InRange(g, i, j)
    ensures SameShape(g, h)
    ensures h.cells[i][j] == ComputeNext(g.variant, g.cells[i][j], NeighbourStates(g, i, j))
    ensures forall i', j' :: InRange(g, i', j') && (i', j') != (i, j) ==> h.cells[i'][j'] == g.cells[i'][j']
  {
    g.(cells := g.cells[i := g.cells[i][j := ComputeNext(g.variant, g.cells[i][j], NeighbourStates(g, i, j))]])
  }

  predicate AllInRange(g: Grid, order: seq<(int, int)>)
  {
    forall n :: 0 <= n < |order| ==> InRange(g, order[n].0, order[n].1)
  }

  predicate NoRepeats(order: seq<(int, int)>)
  {
    forall a, b :: 0 <= a < b < |order| ==> order[a] != order[b]
  }

  /** The first phase run cell by cell in place, in the given order. No
      committed state changes along the way. */
  function ComputeInOrder(g: Grid, order: seq<(int, int)>): (h: Grid)
    requires Valid(g) && AllInRange(g, order)
    ensures SameShape(g, h)
    ensures forall i, j :: InRange(g, i, j) ==> h.cells[i][j].state == g.cells[i][j].state
    decreases |order|
  {
    if |order| == 0 then g
    else
      var h := ComputeInOrder(g, order[..|order| - 1]);
      ComputeAt(h, order[|order| - 1].0, order[|order| - 1].1)
  }

  /** Grids with the same shape and the same committed states show every
      cell the same neighbourhood. */
  lemma SameStatesSameNeighbours(g: Grid, h: Grid, i: int, j: int)
    requires Valid(g) && SameShape(g, h) && InRange(g, i, j)
    requires forall i', j' :: InRange(g, i', j') ==> h.cells[i'][j'].state == g.cells[i'][j'].state
    ensures NeighbourStates(h, i, j) == NeighbourStates(g, i, j)
  {
    forall k | 0 <= k < 8
      ensures NeighbourStates(h, i, j)[k] == NeighbourStates(g, i, j)[k]
    {
      var p := Torus.Neighbour(g.rows, g.cols, i, j, k);
      assert InRange(g, p.0, p.1);
    }
  }

  /** Running the first phase in place over distinct cells, in any order,
      leaves each visited cell as the two-phase computation does and every
      other cell untouched. */
  lemma InPlacePhase(g: Grid, order: seq<(int, int)>)
    requires Valid(g) && AllInRange(g, order) && NoRepeats(order)
    ensures forall i, j :: InRange(g, i, j) ==>
      ComputeInOrder(g, order).cells[i][j] ==
        (if (i, j) in order then ComputePhase(g).cells[i][j] else g.cells[i][j])
  {
    forall i, j | InRange(g, i, j) {
      InPlaceCell(g, order, i, j);
    }
  }

  /** `InPlacePhase` at one cell, by induction on the order. */
  lemma {:induction false} InPlaceCell(g: Grid, order: seq<(int, int)>, i: int, j: int)
    requires Valid(g) && AllInRange(g, order) && NoRepeats(order) && InRange(g, i, j)
    ensures ComputeInOrder(g, order).cells[i][j] ==
      (if (i, j) in order then ComputePhase(g).cells[i][j] else g.cells[i][j])
    decreases |order|
  {
    if |order| > 0 {
      var pre := order[..|order| - 1];
      var last := order[|order| - 1];
      assert order == pre + [last];
      assert AllInRange(g, pre) && NoRepeats(pre);
      var h := ComputeInOrder(g, pre);
      if (i, j) == last {
        assert last !in pre;
        InPlaceCell(g, pre, i, j);
        SameStatesSameNeighbours(g, h, i, j);
      } else {
        InPlaceCell(g, pre, i, j);
        assert (i, j) in order <==> (i, j) in pre;
      }
    }
  }

  /** The first phase gives the same grid whatever order it visits the
      cells in, as long as it visits each once. */
  lemma OrderIrrelevant(g: Grid, order: seq<(int, int)>)
    requires Valid(g) && AllInRange(g, order) && NoRepeats(order)
    requires forall i, j :: InRange(g, i, j) ==> (i, j) in order
    ensures ComputeInOrder(g, order) == ComputePhase(g)
  {
    InPlacePhase(g, order);
    var h, p := ComputeInOrder(g, order), ComputePhase(g);
    forall i | 0 <= i < g.rows
      ensures h.cells[i] == p.cells[i]
    {
      assert forall j :: 0 <= j < g.cols ==> h.cells[i][j] == p.cells[i][j];
    }
  }

  /** Row by row, each row left to right: the order of the engine's loops. */
  function RowMajor(rows: nat, cols: nat): (order: seq<(int, int)>)
    ensures forall n :: 0 <= n < |order| ==> 0 <= order[n].0 < rows && 0 <= order[n].1 < cols
    ensures forall i, j :: 0 <= i < rows && 0 <= j < cols ==> (i, j) in order
    ensures NoRepeats(order)
  {
    if rows == 0 then []
    else
      var pre := RowMajor(rows - 1, cols);
      var row := seq(cols, j requires 0 <= j < cols => (rows - 1, j));
      RowListsColumns(row, rows - 1, cols);
      pre + row
  }

  lemma RowListsColumns(row: seq<(int, int)>, r: int, cols: nat)
    requires |row| == cols && forall j :: 0 <= j < cols ==> row[j] == (r, j)
    ensures forall j :: 0 <= j < cols ==> (r, j) in row
  {
    forall j | 0 <= j < cols
      ensures (r, j) in row
    {
      assert row[j] == (r, j);
    }
  }

  /** The engine's first phase, visiting the cells in row-major order, is
      the two-phase computation. */
  lemma SourceOrderIsPhase(g: Grid)
    requires Valid(g)
    ensures AllInRange(g, RowMajor(g.rows, g.cols))
    ensures ComputeInOrder(g, RowMajor(g.rows, g.cols)) == ComputePhase(g)
  {
    OrderIrrelevant(g, RowMajor(g.rows, g.cols));
  }

  // Seeding and reset.

  /** `setState` on the cell at `(i, j)`. */
  function SetCell(g: Grid, i: int, j: int, s: State): (h: Grid)
    requires Valid(g) && InRange(g, i, j)
    ensures SameShape(g, h)
    ensures h.cells[i][j] == SetState(g.cells[i][j], s)
    ensures forall i', j' :: InRange(g, i', j') && (i', j') != (i, j) ==> h.cells[i'][j'] == g.cells[i'][j']
  {
    g.(cells := g.cells[i := g.cells[i][j := SetState(g.cells[i][j], s)]])
  }

  /** Reading a cell back after one seed: the seeded position gives the
      seeded cell, every other position reads as before. */
  lemma GetAfterSet(g: Grid, i: int, j: int, s: State, i': int, j': int)
    requires Valid(g) && InRange(g, i, j)
    ensures GetCell(SetCell(g, i, j, s), i', j') ==
      if (i', j') == (i, j) then Ok(SetState(g.cells[i][j], s)) else GetCell(g, i', j')
  {
  }

  /** The state the last seed naming `(i, j)` asks for, if any seed does. */
  function LastSeed(coords: seq<CellCoord>, i: int, j: int): Option<State>
  {
    if |coords| == 0 then None
    else if coords[|coords| - 1].row == i && coords[|coords| - 1].col == j then Some(coords[|coords| - 1].state)
    else LastSeed(coords[..|coords| - 1], i, j)
  }

  lemma {:induction false} LastSeedCons(coords: seq<CellCoord>, i: int, j: int)
    requires |coords| > 0
    ensures LastSeed(coords, i, j) ==
      if LastSeed(coords[1..], i, j).Some? then LastSeed(coords[1..], i, j)
      else if coords[0].row == i && coords[0].col == j then Some(coords[0].state)
      else None
    decreases |coords|
  {
    if |coords| > 1 {
      var pre := coords[..|coords| - 1];
      LastSeedCons(pre, i, j);
      assert pre[1..] == coords[1..][..|coords[1..]| - 1];
    }
  }

  /** Every seed names a position inside the grid. */
  predicate SeedsInRange(g: Grid, coords: seq<CellCoord>)
  {
    forall n :: 0 <= n < |coords| ==> InRange(g, coords[n].row, coords[n].col)
  }

  /** Seed `n` is the first one outside the grid. */
  predicate FirstBadSeed(g: Grid, coords: seq<CellCoord>, n: int)
  {
    && 0 <= n < |coords|
    && SeedsInRange(g, coords[..n])
    && !InRange(g, coords[n].row, coords[n].col)
  }

  /** `h` is `g` with the seeds applied: a named cell has the state of the
      last seed naming it, any other cell is as it was. */
  ghost predicate Seeded(g: Grid, coords: seq<CellCoord>, h: Grid)
    requires Valid(g) && SameShape(g, h)
  {
    forall i, j :: InRange(g, i, j) ==>
      h.cells[i][j] == match LastSeed(coords, i, j)
        case Some(s) => SetState(g.cells[i][j], s)
        case None => g.cells[i][j]
  }

  /** `initializeCells`: the seeds are applied in order with `setState`.
      The first seed outside the grid raises; otherwise the cells no seed
      names are untouched, a named cell takes the state of the last seed
      naming it, and staged states and ages stay as they were. */
  function InitializeCells(g: Grid, coords: seq<CellCoord>): (r: Result<Grid, GridError>)
    requires Valid(g)
    ensures r.Ok? <==> SeedsInRange(g, coords)
    ensures r.Err? ==> exists n :: FirstBadSeed(g, coords, n) && r.error == OutOfRange(coords[n].row, coords[n].col)
    ensures r.Ok? ==> SameShape(g, r.value) && Seeded(g, coords, r.value)
    decreases |coords|
  {
    if |coords| == 0 then Ok(g)
    else if !InRange(g, coords[0].row, coords[0].col) then
      assert FirstBadSeed(g, coords, 0);
      Err(OutOfRange(coords[0].row, coords[0].col))
    else
      var g' := SetCell(g, coords[0].row, coords[0].col, coords[0].state);
      var r := InitializeCells(g', coords[1..]);
      SeedsCons(g, g', coords);
      if r.Err? then
        var n :| FirstBadSeed(g', coords[1..], n) && r.error == OutOfRange(coords[1..][n].row, coords[1..][n].col);
        FirstBadCons(g, g', coords, n);
        r
      else
        SeededCons(g, coords, r.value);
        r
  }

  /** Reading a cell back after seeding: a position inside the grid gives
      the state of the last seed naming it, or the cell as it was; a position
      outside still raises. */
  lemma ReadAfterSeeding(g: Grid, coords: seq<CellCoord>, i: int, j: int)
    requires Valid(g) && SeedsInRange(g, coords)
    ensures InitializeCells(g, coords).Ok?
    ensures GetCell(InitializeCells(g, coords).value, i, j) ==
      if !InRange(g, i, j) then Err(OutOfRange(i, j))
      else match LastSeed(coords, i, j)
        case Some(s) => Ok(SetState(g.cells[i][j], s))
        case None => Ok(g.cells[i][j])
  {
  }

  lemma SeedsCons(g: Grid, g': Grid, coords: seq<CellCoord>)
    requires |coords| > 0 && g'.rows == g.rows && g'.cols == g.cols
    ensures SeedsInRange(g, coords) <==> InRange(g, coords[0].row, coords[0].col) && SeedsInRange(g', coords[1..])
  {
    assert forall n :: 1 <= n < |coords| ==> coords[n] == coords[1..][n - 1];
  }

  lemma FirstBadCons(g: Grid, g': Grid, coords: seq<CellCoord>, n: int)
    requires |coords| > 0 && g'.rows == g.rows && g'.cols == g.cols
    requires InRange(g, coords[0].row, coords[0].col)
    requires FirstBadSeed(g', coords[1..], n)
    ensures FirstBadSeed(g, coords, n + 1) && coords[n + 1] == coords[1..][n]
  {
    assert coords[..n + 1][1..] == coords[1..][..n];
    SeedsCons(g, g', coords[..n + 1]);
  }

  lemma SeededCons(g: Grid, coords: seq<CellCoord>, h: Grid)
    requires Valid(g) && |coords| > 0 && InRange(g, coords[0].row, coords[0].col)
    requires SameShape(g, h)
    requires Seeded(SetCell(g, coords[0].row, coords[0].col, coords[0].state), coords[1..], h)
    ensures Seeded(g, coords, h)
  {
    forall i, j | InRange(g, i, j)
      ensures h.cells[i][j] == match LastSeed(coords, i, j)
        case Some(s) => SetState(g.cells[i][j], s)
        case None => g.cells[i][j]
    {
      LastSeedCons(coords, i, j);
    }
  }

  /** `resetCells`: every committed state becomes Dead through `setState`;
      staged states and ages stay as they were. */
  function ResetCells(g: Grid): (h: Grid)
    requires Valid(g)
    ensures SameShape(g, h)
    ensures forall i, j :: InRange(g, i, j) ==>
      h.cells[i][j].state == Dead && h.cells[i][j].nextState == g.cells[i][j].nextState && h.cells[i][j].age == g.cells[i][j].age
  {
    g.(cells := seq(g.rows, i requires 0 <= i < g.rows =>
      seq(g.cols, j requires 0 <= j < g.cols => SetState(g.cells[i][j], Dead))))
  }

  ghost predicate AllDead(g: Grid)
    requires Valid(g)
  {
    forall i, j :: InRange(g, i, j) ==> g.cells[i][j].state == Dead
  }

  /** After a reset no cell is alive, in any variant, and a second reset
      changes nothing. */
  lemma ResetKillsAll(g: Grid)
    requires Valid(g)
    ensures AllDead(ResetCells(g))
    ensures forall i, j :: InRange(g, i, j) ==> !IsAlive(g.variant, ResetCells(g).cells[i][j].state)
    ensures ResetCells(ResetCells(g)) == ResetCells(g)
  {
    var h := ResetCells(g);
    var h2 := ResetCells(h);
    forall i | 0 <= i < g.rows
      ensures h2.cells[i] == h.cells[i]
    {
      assert forall j :: 0 <= j < g.cols ==> h2.cells[i][j] == h.cells[i][j];
    }
  }

  lemma {:induction false} CountNone(ns: seq<State>, p: State -> bool)
    requires forall k :: 0 <= k < |ns| ==> !p(ns[k])
    ensures CountIf(ns, p) == 0
    decreases |ns|
  {
    if |ns| > 0 {
      CountNone(ns[..|ns| - 1], p);
    }
  }

  /** A cell whose neighbours are all dead, under each variant. */
  lemma QuietNeighbourhood(v: Variant, c: Cell, ns: seq<State>)
    requires forall k :: 0 <= k < |ns| ==> ns[k] == Dead
    requires c.state == Dead
    ensures ComputeNext(v, c, ns).nextState == (if v.RuleBasedCells? && 0 in v.rule.birth then Alive else Dead)
  {
    CountNone(ns, BasicAlive);
    CountNone(ns, AgingAlive);
    assert forall u :: Multispecies.Producible(u) ==> u !in multiset(ns);
    var d := Multispecies.MaxDict(Multispecies.Tally(ns));
    Multispecies.TallyFacts(ns);
    assert d.0 == 0;
  }

  /** A generation after a reset leaves the whole grid dead, except that a
      rule-based grid whose rule gives birth on zero neighbours comes alive
      everywhere: it stays dead exactly when 0 is not a birth count. */
  lemma ResetThenUpdate(g: Grid)
    requires Valid(g) && g.rows > 0 && g.cols > 0
    ensures AllDead(UpdateCells(ResetCells(g))) <==> !(g.variant.RuleBasedCells? && 0 in g.variant.rule.birth)
  {
    var h := ResetCells(g);
    var u := UpdateCells(h);
    forall i, j | InRange(g, i, j)
      ensures u.cells[i][j].state == (if g.variant.RuleBasedCells? && 0 in g.variant.rule.birth then Alive else Dead)
    {
      QuietNeighbourhood(g.variant, h.cells[i][j], NeighbourStates(h, i, j));
    }
    assert InRange(g, 0, 0);
  }

  // Invariants of a generation.

  /** A grid whose states all lie in `dom`, staged states included when
      `staged` is set. */
  ghost predicate StatesIn(g: Grid, dom: set<State>, staged: bool)
    requires Valid(g)
  {
    forall i, j :: InRange(g, i, j) ==>
      g.cells[i][j].state in dom && (staged ==> g.cells[i][j].nextState in dom)
  }

  const BasicStates: set<State> := {Dead, Alive}
  const AgingStates: set<State> := {Dead, Alive, Old}
  const CustomStates: set<State> := {Dead, Old, R, G, B, RG, GB, BR, RGB}

  /** One cell's step keeps its variant's states. */
  lemma StepKeepsDomain(v: Variant, c: Cell, ns: seq<State>)
    ensures (v.BasicCells? || v.RuleBasedCells?) && c.state in BasicStates ==>
      ComputeNext(v, c, ns).nextState in BasicStates
    ensures v.AgingCells? && c.state in AgingStates ==> ComputeNext(v, c, ns).nextState in AgingStates
    ensures v.CustomCells? && c.state in CustomStates && c.nextState in CustomStates ==>
      ComputeNext(v, c, ns).nextState in CustomStates
  {
    var n := ComputeNext(v, c, ns).nextState;
    assert Multispecies.InDomain(c.state) <==> c.state in CustomStates;
    assert Multispecies.InDomain(c.nextState) <==> c.nextState in CustomStates;
    assert Multispecies.InDomain(n) <==> n in CustomStates;
  }

  /** A generation keeps a Basic or rule-based grid within Dead and Alive, an
      Aging grid within Dead, Alive and Old, and a Custom grid, staged states
      included, within Dead, Old and the species states. */
  lemma GenerationKeepsDomain(g: Grid)
    requires Valid(g)
    ensures (g.variant.BasicCells? || g.variant.RuleBasedCells?) && StatesIn(g, BasicStates, false) ==>
      StatesIn(UpdateCells(g), BasicStates, true)
    ensures g.variant.AgingCells? && StatesIn(g, AgingStates, false) ==>
      StatesIn(UpdateCells(g), AgingStates, true)
    ensures g.variant.CustomCells? && StatesIn(g, CustomStates, true) ==>
      StatesIn(UpdateCells(g), CustomStates, true)
  {
    forall i, j | InRange(g, i, j) {
      StepKeepsDomain(g.variant, g.cells[i][j], NeighbourStates(g, i, j));
    }
  }

  /** One generation of a rule-based grid whose rule agrees with Conway's
      on every count gives the same cells as one generation of the same
      grid in Basic mode. */
  lemma ConwayStepLikeBasic(g: Grid)
    requires Valid(g) && g.variant.RuleBasedCells? && ActsAsConway(g.variant.rule)
    ensures UpdateCells(g).cells == UpdateCells(g.(variant := BasicCells)).cells
  {
    var b := g.(variant := BasicCells);
    var u, ub := UpdateCells(g), UpdateCells(b);
    RuleBasicAgreement(g.variant.rule);
    forall i | 0 <= i < g.rows
      ensures u.cells[i] == ub.cells[i]
    {
      forall j | 0 <= j < g.cols
        ensures u.cells[i][j] == ub.cells[i][j]
      {
        assert NeighbourStates(g, i, j) == NeighbourStates(b, i, j);
      }
    }
  }

  /** A rule-based grid whose rule agrees with Conway's on every count, as
      the rule parsed from "B3/S23" does, evolves exactly like the same grid
      in Basic mode, generation after generation. */
  lemma {:induction false} ConwayRunsLikeBasic(g: Grid, n: nat)
    requires Valid(g) && g.variant.RuleBasedCells? && ActsAsConway(g.variant.rule)
    ensures Run(g, n).cells == Run(g.(variant := BasicCells), n).cells
    decreases n
  {
    if n > 0 {
      var b := g.(variant := BasicCells);
      var u, ub := UpdateCells(g), UpdateCells(b);
      ConwayStepLikeBasic(g);
      assert ub == u.(variant := BasicCells);
      ConwayRunsLikeBasic(u, n - 1);
    }
  }
}
