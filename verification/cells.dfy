/** A single cell and the transition rules of the Basic, Aging and
    rule-based variants (game.h:54-189). A cell is modelled as a record
    rather than an object: its committed state, the state staged by the
    last computation, and the generation counter the Aging and Custom
    variants keep (the Basic and rule-based cells never read it). A step
    reads the committed states of the eight neighbours, passed in wiring
    order. */
module Cells {
  import opened CellStates
  import RuleStrings

  datatype Cell = Cell(state: State, nextState: State, age: int)

  /** A newly constructed cell: dead, nothing staged, age zero. */
  const Fresh := Cell(Dead, Dead, 0)

  /** How many of `ns` satisfy `p`: the neighbour-counting loop of every
      variant, with `p` the variant's liveness test. */
  function CountIf(ns: seq<State>, p: State -> bool): (n: nat)
    ensures n <= |ns|
  {
    if |ns| == 0 then 0
    else CountIf(ns[..|ns| - 1], p) + (if p(ns[|ns| - 1]) then 1 else 0)
  }

  /** Liveness in the Basic and rule-based variants: only Alive counts, so
      Old and the species states count as dead there. */
  predicate BasicAlive(s: State)
    ensures BasicAlive(s) <==> Code(s) == 1
  {
    s == Alive
  }

  /** Liveness in the Aging variant: Alive or Old. */
  predicate AgingAlive(s: State)
    ensures AgingAlive(s) <==> Code(s) == 1 || Code(s) == 2
  {
    s == Alive || s == Old
  }

  /** `setState`: every variant overwrites the committed state only; the
      staged state and the age are left as they were. */
  function SetState(c: Cell, s: State): (r: Cell)
    ensures r.state == s
    ensures r.nextState == c.nextState && r.age == c.age
  {
    c.(state := s)
  }

  /** `update`: the staged state becomes the committed one. */
  function Commit(c: Cell): (r: Cell)
    ensures r.state == c.nextState
    ensures r.nextState == c.nextState && r.age == c.age
  {
    c.(state := c.nextState)
  }

  /** Conway's rule on the Basic cell. */
  function BasicNext(c: Cell, ns: seq<State>): (r: Cell)
    ensures r.state == c.state && r.age == c.age
    ensures var live := CountIf(ns, BasicAlive);
      && (c.state == Alive && (live < 2 || live > 3) ==> r.nextState == Dead)
      && (c.state != Alive && live == 3 ==> r.nextState == Alive)
      && (!(c.state == Alive && (live < 2 || live > 3)) && !(c.state != Alive && live == 3) ==> r.nextState == c.state)
    ensures var live := CountIf(ns, BasicAlive);
      r.nextState == Alive <==> live == 3 || (c.state == Alive && live == 2)
  {
    var live := CountIf(ns, BasicAlive);
    var alive := BasicAlive(c.state);
    var next :=
      if alive && live < 2 then Dead
      else if alive && live > 3 then Dead
      else if !alive && live == 3 then Alive
      else c.state;
    c.(nextState := next)
  }

  /** The Aging cell: Conway's rule with Alive and Old both live; a live cell
      ages by one per step, an Old cell dies, a cell that would be Alive with
      age 3 is staged Old instead, and a cell staged Dead has its age reset. */
  function AgingNext(c: Cell, ns: seq<State>): (r: Cell)
    ensures r.state == c.state
    ensures c.state == Old ==> r.nextState == Dead
    ensures r.nextState == Dead ==> r.age == 0
    ensures r.nextState != Dead ==> r.age == (if AgingAlive(c.state) then c.age + 1 else c.age)
    ensures var live := CountIf(ns, AgingAlive);
      AgingAlive(r.nextState) <==> (c.state == Alive && 2 <= live <= 3) || (!AgingAlive(c.state) && live == 3)
    ensures r.nextState == Old <==> AgingAlive(r.nextState) && r.age == 3
    ensures c.state in {Dead, Alive, Old} ==> r.nextState in {Dead, Alive, Old}
    ensures !AgingAlive(c.state) ==> r.nextState in {c.state, Alive, Old}
  {
    var live := CountIf(ns, AgingAlive);
    var alive := AgingAlive(c.state);
    var age := if alive then c.age + 1 else c.age;
    var next :=
      if alive && live < 2 then Dead
      else if alive && live > 3 then Dead
      else if !alive && live == 3 then Alive
      else if c.state == Old then Dead
      else c.state;
    var age' := if next == Dead then 0 else age;
    var next' := if next == Alive && age' == 3 then Old else next;
    Cell(c.state, next', age')
  }

  /** The rule-based cell: a live cell survives exactly when its live count
      is listed in `survive`; any other cell is born exactly when its count
      is listed in `birth`. */
  function RuleNext(rule: RuleStrings.Rule, c: Cell, ns: seq<State>): (r: Cell)
    ensures r.state == c.state && r.age == c.age
    ensures var live := CountIf(ns, BasicAlive);
      r.nextState == Alive <==> (c.state == Alive && live in rule.survive) || (c.state != Alive && live in rule.birth)
    ensures r.nextState != Alive ==> r.nextState == (if c.state == Alive then Dead else c.state)
  {
    var live := CountIf(ns, BasicAlive);
    var alive := BasicAlive(c.state);
    var next :=
      if alive && live !in rule.survive then Dead
      else if !alive && live in rule.birth then Alive
      else c.state;
    c.(nextState := next)
  }

  /** A rule agrees with Conway's on every count a cell can see. */
  predicate ActsAsConway(rule: RuleStrings.Rule)
  {
    forall n :: 0 <= n <= 8 ==> (n in rule.birth <==> n == 3) && (n in rule.survive <==> n == 2 || n == 3)
  }

  /** Eight neighbours of which the first `n` are Alive. */
  function AliveRow(n: nat): (ns: seq<State>)
    requires n <= 8
    ensures |ns| == 8
    ensures CountIf(ns, BasicAlive) == n
  {
    var ns := seq(8, k requires 0 <= k < 8 => if k < n then Alive else Dead);
    CountAliveRow(ns, n, 8);
    assert ns[..8] == ns;
    ns
  }

  lemma {:induction false} CountAliveRow(ns: seq<State>, n: nat, m: nat)
    requires m <= |ns|
    requires forall k :: 0 <= k < |ns| ==> ns[k] == (if k < n then Alive else Dead)
    ensures CountIf(ns[..m], BasicAlive) == (if n < m then n else m)
  {
    if m > 0 {
      CountAliveRow(ns, n, m - 1);
      assert ns[..m][..m - 1] == ns[..m - 1];
    } else {
      assert ns[..m] == [];
    }
  }

  /** A rule-based cell behaves exactly like a Basic cell, for every state
      and every neighbourhood, if and only if its rule lists 3 for birth and
      2 and 3 for survival among the counts 0 to 8: order and duplicates
      in the lists do not matter. */
  lemma RuleBasicAgreement(rule: RuleStrings.Rule)
    ensures ActsAsConway(rule) <==>
      forall c: Cell, ns: seq<State> :: |ns| == 8 ==> RuleNext(rule, c, ns) == BasicNext(c, ns)
  {
    if ActsAsConway(rule) {
      forall c: Cell, ns: seq<State> | |ns| == 8
        ensures RuleNext(rule, c, ns) == BasicNext(c, ns)
      {
        var live := CountIf(ns, BasicAlive);
        assert 0 <= live <= 8;
      }
    }
    if forall c: Cell, ns: seq<State> :: |ns| == 8 ==> RuleNext(rule, c, ns) == BasicNext(c, ns) {
      forall n | 0 <= n <= 8
        ensures (n in rule.birth <==> n == 3) && (n in rule.survive <==> n == 2 || n == 3)
      {
        var ns := AliveRow(n);
        assert RuleNext(rule, Fresh, ns) == BasicNext(Fresh, ns);
        assert RuleNext(rule, Cell(Alive, Dead, 0), ns) == BasicNext(Cell(Alive, Dead, 0), ns);
      }
    }
  }

  /** The rule parsed from "B3/S23" agrees with Conway's on every count, so
      it drives the rule-based cell exactly like the Basic cell. */
  lemma ConwayRuleIsBasic(c: Cell, ns: seq<State>)
    requires |ns| == 8
    ensures RuleStrings.WellFormed("B3/S23")
    ensures ActsAsConway(RuleStrings.ParseRule("B3/S23"))
    ensures RuleNext(RuleStrings.ParseRule("B3/S23"), c, ns) == BasicNext(c, ns)
  {
    RuleStrings.ConwayString();
    RuleBasicAgreement(RuleStrings.Rule([3], [2, 3]));
  }
}
