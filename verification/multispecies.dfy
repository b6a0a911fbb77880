/** The Custom variant (game.h:194-303): species R, G and B, their hybrids,
    and Old. A cell tallies its neighbours per species state, finds the
    largest tally and the states that reach it, and survives, dies, is born
    or is born a hybrid from that. */
module Multispecies {
  import opened CellStates
  import opened Cells
  import Euclid

  /** `isAlive` of the Custom cell: any species state, or Old. Alive (code 1)
      is not live here. */
  predicate IsAlive(s: State)
    ensures IsAlive(s) <==> Code(s) >= 2
  {
    s in {R, G, B, RG, GB, BR, RGB, Old}
  }

  /** `isProducable`: a species state, which can survive and give birth. */
  predicate Producible(s: State)
    ensures Producible(s) <==> Code(s) >= 3
  {
    s in {R, G, B, RG, GB, BR, RGB}
  }

  /** The states a Custom grid is meant to hold. */
  predicate InDomain(s: State)
  {
    s == Dead || s == Old || Producible(s)
  }

  /** The keys of the tally map, in the map's ascending code order. */
  const Keys: seq<State> := [R, G, B, RG, BR, GB, RGB]

  predicate Ascending(ss: seq<State>)
  {
    forall i, j :: 0 <= i < j < |ss| ==> Code(ss[i]) < Code(ss[j])
  }

  /** The species the state is made of; the code of a species state is the
      product of the primes 3, 4 and 5 of its constituents. */
  function Species(s: State): set<State>
  {
    match s
    case RG => {R, G}
    case GB => {G, B}
    case BR => {B, R}
    case RGB => {R, G, B}
    case _ => if Producible(s) then {s} else {}
  }

  /** The tally of the neighbours: one entry per species state, in key
      order, counting the neighbours in exactly that state. Old neighbours
      are not counted. */
  function Tally(ns: seq<State>): (dict: seq<(State, int)>)
    ensures |dict| == |Keys|
    ensures forall k :: 0 <= k < |dict| ==> dict[k].0 == Keys[k] && 0 <= dict[k].1 <= |ns|
  {
    seq(|Keys|, k requires 0 <= k < |Keys| => (Keys[k], multiset(ns)[Keys[k]]))
  }

  /** The first half of `maxDict`: the largest value, starting from 0. */
  function MaxAmount(dict: seq<(State, int)>): (m: int)
    ensures m >= 0
    ensures forall k :: 0 <= k < |dict| ==> dict[k].1 <= m
    ensures m > 0 ==> exists k :: 0 <= k < |dict| && dict[k].1 == m
  {
    if |dict| == 0 then 0
    else
      var m0 := MaxAmount(dict[..|dict| - 1]);
      if dict[|dict| - 1].1 > m0 then dict[|dict| - 1].1 else m0
  }

  function KeysOf(dict: seq<(State, int)>): (ks: seq<State>)
    ensures |ks| == |dict|
    ensures forall k :: 0 <= k < |dict| ==> ks[k] == dict[k].0
  {
    seq(|dict|, k requires 0 <= k < |dict| => dict[k].0)
  }

  /** The second half of `maxDict`: the keys whose value is `m`, in order. */
  function KeysAt(dict: seq<(State, int)>, m: int): (ks: seq<State>)
    ensures |ks| <= |dict|
    ensures forall s :: s in ks <==> (s, m) in dict
  {
    if |dict| == 0 then []
    else
      var pre := dict[..|dict| - 1];
      var last := dict[|dict| - 1];
      assert dict == pre + [last];
      if last.1 == m then KeysAt(pre, m) + [last.0] else KeysAt(pre, m)
  }

  /** Keys listed in ascending order are collected in ascending order. */
  lemma {:induction false} KeysAtAscending(dict: seq<(State, int)>, m: int)
    requires Ascending(KeysOf(dict))
    ensures Ascending(KeysAt(dict, m))
    decreases |dict|
  {
    if |dict| > 0 {
      var pre := dict[..|dict| - 1];
      var last := dict[|dict| - 1];
      assert KeysOf(pre) == KeysOf(dict)[..|pre|];
      AscendingPrefix(KeysOf(dict), |pre|);
      KeysAtAscending(pre, m);
      if last.1 == m {
        var ks := KeysAt(pre, m);
        forall s | s in ks
          ensures Code(s) < Code(last.0)
        {
          var k :| 0 <= k < |pre| && pre[k] == (s, m);
          assert KeysOf(dict)[k] == s && KeysOf(dict)[|dict| - 1] == last.0;
        }
        AscendingAppend(ks, last.0);
      }
    }
  }

  lemma AscendingPrefix(ss: seq<State>, n: nat)
    requires Ascending(ss) && n <= |ss|
    ensures Ascending(ss[..n])
  {
  }

  lemma AscendingAppend(ss: seq<State>, x: State)
    requires Ascending(ss)
    requires forall s :: s in ss ==> Code(s) < Code(x)
    ensures Ascending(ss + [x])
  {
    assert forall i :: 0 <= i < |ss| ==> ss[i] in ss;
  }

  /** `maxDict`: the largest tally and, in ascending code order, every key
      that reaches it. */
  function MaxDict(dict: seq<(State, int)>): (r: (int, seq<State>))
    ensures r.0 >= 0 && forall k :: 0 <= k < |dict| ==> dict[k].1 <= r.0
    ensures forall s :: s in r.1 <==> (s, r.0) in dict
    ensures |dict| > 0 && (forall k :: 0 <= k < |dict| ==> dict[k].1 >= 0) ==> |r.1| > 0
    ensures Ascending(KeysOf(dict)) ==> Ascending(r.1)
  {
    var m := MaxAmount(dict);
    MaxReached(dict);
    (m, KeysAt(dict, m))
  }

  lemma MaxReached(dict: seq<(State, int)>)
    ensures Ascending(KeysOf(dict)) ==> Ascending(KeysAt(dict, MaxAmount(dict)))
    ensures |dict| > 0 && (forall k :: 0 <= k < |dict| ==> dict[k].1 >= 0) ==> |KeysAt(dict, MaxAmount(dict))| > 0
  {
    var m := MaxAmount(dict);
    if Ascending(KeysOf(dict)) {
      KeysAtAscending(dict, m);
    }
    if |dict| > 0 && (forall k :: 0 <= k < |dict| ==> dict[k].1 >= 0) {
      var k := if m > 0 then var k :| 0 <= k < |dict| && dict[k].1 == m; k else 0;
      assert dict[k] == (dict[k].0, m);
      assert dict[k].0 in KeysAt(dict, m);
    }
  }

  /** The state a two-way tie gives birth to: the enumerator whose code is
      the least common multiple of the two tied codes (game.h:273). */
  function Hybrid(a: State, b: State): (h: State)
    requires Producible(a) && Producible(b) && a != b
    ensures Producible(h)
    ensures Code(h) == Euclid.Lcm(Code(a), Code(b))
    ensures Code(h) % Code(a) == 0 && Code(h) % Code(b) == 0
    ensures Species(h) == Species(a) + Species(b)
  {
    HybridCodeClosed(a, b);
    FromCode(Euclid.Lcm(Code(a), Code(b))).value
  }

  /** The codes are chosen so that the least common multiple of two distinct
      species codes is again a species code, namely the one made of both
      species together: the cast in the birth rule never leaves the
      enumeration. */
  lemma HybridCodeClosed(a: State, b: State)
    requires Producible(a) && Producible(b) && a != b
    ensures FromCode(Euclid.Lcm(Code(a), Code(b))).Some?
    ensures Producible(FromCode(Euclid.Lcm(Code(a), Code(b))).value)
    ensures Species(FromCode(Euclid.Lcm(Code(a), Code(b))).value) == Species(a) + Species(b)
  {
    LcmOfCodes();
    match a
    case R =>
    case G =>
    case B =>
    case RG =>
    case GB =>
    case BR =>
    case RGB =>
  }

  /** The least common multiples of the species codes, pair by pair. */
  lemma LcmOfCodes()
    ensures Euclid.Lcm(3, 4) == 12 && Euclid.Lcm(4, 3) == 12
    ensures Euclid.Lcm(3, 5) == 15 && Euclid.Lcm(5, 3) == 15
    ensures Euclid.Lcm(3, 12) == 12 && Euclid.Lcm(12, 3) == 12
    ensures Euclid.Lcm(3, 15) == 15 && Euclid.Lcm(15, 3) == 15
    ensures Euclid.Lcm(3, 20) == 60 && Euclid.Lcm(20, 3) == 60
    ensures Euclid.Lcm(3, 60) == 60 && Euclid.Lcm(60, 3) == 60
    ensures Euclid.Lcm(4, 5) == 20 && Euclid.Lcm(5, 4) == 20
    ensures Euclid.Lcm(4, 12) == 12 && Euclid.Lcm(12, 4) == 12
    ensures Euclid.Lcm(4, 15) == 60 && Euclid.Lcm(15, 4) == 60
    ensures Euclid.Lcm(4, 20) == 20 && Euclid.Lcm(20, 4) == 20
    ensures Euclid.Lcm(4, 60) == 60 && Euclid.Lcm(60, 4) == 60
    ensures Euclid.Lcm(5, 12) == 60 && Euclid.Lcm(12, 5) == 60
    ensures Euclid.Lcm(5, 15) == 15 && Euclid.Lcm(15, 5) == 15
    ensures Euclid.Lcm(5, 20) == 20 && Euclid.Lcm(20, 5) == 20
    ensures Euclid.Lcm(5, 60) == 60 && Euclid.Lcm(60, 5) == 60
    ensures Euclid.Lcm(12, 15) == 60 && Euclid.Lcm(15, 12) == 60
    ensures Euclid.Lcm(12, 20) == 60 && Euclid.Lcm(20, 12) == 60
    ensures Euclid.Lcm(12, 60) == 60 && Euclid.Lcm(60, 12) == 60
    ensures Euclid.Lcm(15, 20) == 60 && Euclid.Lcm(20, 15) == 60
    ensures Euclid.Lcm(15, 60) == 60 && Euclid.Lcm(60, 15) == 60
    ensures Euclid.Lcm(20, 60) == 60 && Euclid.Lcm(60, 20) == 60
  {
  }

  lemma KeysAscending()
    ensures Ascending(Keys)
    ensures forall s :: Producible(s) <==> s in Keys
  {
  }

  /** The states reaching the largest tally are distinct species states,
      listed in ascending code order. */
  lemma TiedStatesProducible(ns: seq<State>)
    ensures var ms := MaxDict(Tally(ns)).1;
      Ascending(ms) && forall s :: s in ms ==> Producible(s)
  {
    KeysAscending();
    assert KeysOf(Tally(ns)) == Keys;
  }

  /** `computeNextState` of the Custom cell. A species cell ages by one and
      survives, in its own state, exactly when the largest neighbour tally is
      2 to 4 and its own state reaches it; it turns Old instead when its age
      reaches 3. An Old cell dies. Any other cell is born when the largest
      tally is 2 or 3: into the single state that reaches it, or into the
      hybrid of the two that tie; when three or more tie the staged state is
      not assigned and keeps whatever the previous step left there. A cell
      staged Dead has its age reset. */
  function CustomNext(c: Cell, ns: seq<State>): (r: Cell)
    ensures r.state == c.state
    ensures r.nextState == Dead ==> r.age == 0
    ensures c.state == Old ==> r.nextState == Dead
    ensures var d := MaxDict(Tally(ns));
      Producible(c.state) ==>
        && (r.nextState == Dead <==> d.0 <= 1 || d.0 > 4 || c.state !in d.1)
        && (r.nextState != Dead ==> r.age == c.age + 1 && r.nextState == (if c.age + 1 == 3 then Old else c.state))
    ensures var d := MaxDict(Tally(ns));
      !IsAlive(c.state) ==>
        && (d.0 != 2 && d.0 != 3 ==> r.nextState == c.state)
        && ((d.0 == 2 || d.0 == 3) && |d.1| == 1 ==> r.nextState == d.1[0])
        && ((d.0 == 2 || d.0 == 3) && |d.1| == 2 ==>
              Producible(r.nextState) && Species(r.nextState) == Species(d.1[0]) + Species(d.1[1]))
        && ((d.0 == 2 || d.0 == 3) && |d.1| >= 3 ==> r.nextState == c.nextState)
        && (r.nextState != Dead ==> r.age == c.age)
    ensures InDomain(c.state) && InDomain(c.nextState) ==> InDomain(r.nextState)
  {
    var d := MaxDict(Tally(ns));
    var m, ms := d.0, d.1;
    TiedStatesProducible(ns);
    if IsAlive(c.state) then
      if Producible(c.state) then
        var age := c.age + 1;
        var next :=
          if m <= 1 then Dead
          else if m <= 4 then (if c.state in ms then c.state else Dead)
          else Dead;
        var next' := if next != Dead && age == 3 then Old else next;
        Cell(c.state, next', if next' == Dead then 0 else age)
      else
        Cell(c.state, Dead, 0)
    else
      var next :=
        if m == 2 || m == 3 then
          if |ms| == 1 then ms[0]
          else if |ms| == 2 then Hybrid(ms[0], ms[1])
          else c.nextState
        else c.state;
      Cell(c.state, next, if next == Dead then 0 else c.age)
  }

  /** `t` is a species state no other species outnumbers among `ns`. */
  predicate Top(ns: seq<State>, t: State)
  {
    Producible(t) && forall u :: Producible(u) ==> multiset(ns)[u] <= multiset(ns)[t]
  }

  /** What `maxDict` of the tally says, in terms of the neighbours
      themselves: the largest tally is the count of a species no other
      outnumbers, and the tied states are exactly the species with that
      count. */
  lemma TallyFacts(ns: seq<State>)
    ensures var d := MaxDict(Tally(ns));
      && (forall u :: Producible(u) ==> multiset(ns)[u] <= d.0)
      && (exists t :: Producible(t) && multiset(ns)[t] == d.0)
      && (forall u :: u in d.1 <==> Producible(u) && multiset(ns)[u] == d.0)
  {
    var dict := Tally(ns);
    var d := MaxDict(dict);
    KeysAscending();
    forall u | Producible(u)
      ensures multiset(ns)[u] <= d.0
      ensures u in d.1 <==> multiset(ns)[u] == d.0
    {
      var k :| 0 <= k < |Keys| && Keys[k] == u;
      assert dict[k] == (u, multiset(ns)[u]);
    }
    forall u | u in d.1
      ensures Producible(u)
    {
      var k :| 0 <= k < |dict| && dict[k] == (u, d.0);
    }
    if d.0 > 0 {
      var k :| 0 <= k < |dict| && dict[k].1 == d.0;
      assert Producible(Keys[k]) && multiset(ns)[Keys[k]] == d.0;
    } else {
      assert dict[0].1 >= 0;
      assert multiset(ns)[R] == d.0;
    }
  }

  /** Survival of a species cell, stated on its neighbours: it lives on
      exactly when 2 to 4 neighbours share its state and no other species
      has more. */
  lemma CustomSurvival(c: Cell, ns: seq<State>)
    requires Producible(c.state)
    ensures CustomNext(c, ns).nextState != Dead <==> 2 <= multiset(ns)[c.state] <= 4 && Top(ns, c.state)
  {
    TallyFacts(ns);
  }

  /** A cell that is not live changes only when some species, outnumbered by
      no other, counts 2 or 3 among its neighbours. */
  lemma {:induction false} CustomBirthNeedsTop(c: Cell, ns: seq<State>)
    requires !IsAlive(c.state)
    requires CustomNext(c, ns).nextState != c.state
    ensures exists t :: Top(ns, t) && 2 <= multiset(ns)[t] <= 3
  {
    TallyFacts(ns);
    var d := MaxDict(Tally(ns));
    var t :| Producible(t) && multiset(ns)[t] == d.0;
    assert Top(ns, t);
  }

  /** An ascending list drawn from at most two states is at most that long. */
  lemma AscendingPigeonhole(ms: seq<State>, a: State, b: State)
    requires Ascending(ms)
    requires forall u :: u in ms ==> u == a || u == b
    ensures |ms| <= (if a == b then 1 else 2)
  {
    FirstThree(ms);
  }

  lemma FirstThree(ms: seq<State>)
    ensures |ms| >= 2 ==> ms[0] in ms && ms[1] in ms
    ensures |ms| >= 3 ==> ms[2] in ms
  {
  }

  /** A single most frequent species counting 2 or 3 is copied. */
  lemma CustomBirthUnique(c: Cell, ns: seq<State>, t: State)
    requires !IsAlive(c.state)
    requires Producible(t) && 2 <= multiset(ns)[t] <= 3
    requires forall u :: Producible(u) && u != t ==> multiset(ns)[u] < multiset(ns)[t]
    ensures CustomNext(c, ns).nextState == t
  {
    TallyFacts(ns);
    TiedStatesProducible(ns);
    var d := MaxDict(Tally(ns));
    assert d.0 == multiset(ns)[t];
    assert t in d.1;
    AscendingPigeonhole(d.1, t, t);
    assert |d.1| == 1;
  }

  /** Two species tying as most frequent, with 2 or 3 each, give birth to
      their hybrid: the state made of both their species. */
  lemma CustomBirthHybrid(c: Cell, ns: seq<State>, t1: State, t2: State)
    requires !IsAlive(c.state)
    requires Producible(t1) && Producible(t2) && t1 != t2
    requires multiset(ns)[t1] == multiset(ns)[t2] && 2 <= multiset(ns)[t1] <= 3
    requires forall u :: Producible(u) && u != t1 && u != t2 ==> multiset(ns)[u] < multiset(ns)[t1]
    ensures CustomNext(c, ns).nextState == Hybrid(t1, t2)
    ensures Species(CustomNext(c, ns).nextState) == Species(t1) + Species(t2)
  {
    var d := TwoTied(ns, t1, t2);
    HybridSymmetric(d.1[0], d.1[1]);
    HybridCodeClosed(t1, t2);
  }

  lemma TwoTied(ns: seq<State>, t1: State, t2: State) returns (d: (int, seq<State>))
    requires Producible(t1) && Producible(t2) && t1 != t2
    requires multiset(ns)[t1] == multiset(ns)[t2] && 2 <= multiset(ns)[t1] <= 3
    requires forall u :: Producible(u) && u != t1 && u != t2 ==> multiset(ns)[u] < multiset(ns)[t1]
    ensures d == MaxDict(Tally(ns))
    ensures d.0 == multiset(ns)[t1]
    ensures |d.1| == 2 && ((d.1[0] == t1 && d.1[1] == t2) || (d.1[0] == t2 && d.1[1] == t1))
  {
    TallyFacts(ns);
    TiedStatesProducible(ns);
    d := MaxDict(Tally(ns));
    assert d.0 == multiset(ns)[t1];
    assert forall u :: u in d.1 <==> u == t1 || u == t2;
    ExactlyTwo(d.1, t1, t2);
  }

  /** An ascending list holding exactly two distinct states lists each once. */
  lemma ExactlyTwo(ms: seq<State>, t1: State, t2: State)
    requires Ascending(ms) && t1 != t2
    requires forall u :: u in ms <==> u == t1 || u == t2
    ensures |ms| == 2 && ((ms[0] == t1 && ms[1] == t2) || (ms[0] == t2 && ms[1] == t1))
  {
    AscendingPigeonhole(ms, t1, t2);
    assert t1 in ms && t2 in ms;
    ShortLists(ms);
  }

  /** The hybrid of two species does not depend on which comes first. */
  lemma HybridSymmetric(a: State, b: State)
    requires Producible(a) && Producible(b) && a != b
    ensures Hybrid(a, b) == Hybrid(b, a)
  {
    LcmOfCodes();
    CodeRoundTrip(Hybrid(a, b));
  }

  /** Three or more species tying as most frequent, with 2 or 3 each, leave
      the staged state as the previous step left it. */
  lemma CustomBirthStale(c: Cell, ns: seq<State>, t1: State, t2: State, t3: State)
    requires !IsAlive(c.state)
    requires Producible(t1) && Producible(t2) && Producible(t3)
    requires t1 != t2 && t2 != t3 && t1 != t3
    requires multiset(ns)[t1] == multiset(ns)[t2] == multiset(ns)[t3]
    requires 2 <= multiset(ns)[t1] <= 3
    requires Top(ns, t1)
    ensures CustomNext(c, ns).nextState == c.nextState
  {
    TallyFacts(ns);
    TiedStatesProducible(ns);
    var d := MaxDict(Tally(ns));
    assert d.0 == multiset(ns)[t1];
    assert t1 in d.1 && t2 in d.1 && t3 in d.1;
    ShortLists(d.1);
    assert |d.1| >= 3;
  }

  /** What a list of at most two states can contain. */
  lemma ShortLists(ms: seq<State>)
    ensures |ms| == 0 ==> forall u :: u !in ms
    ensures |ms| == 1 ==> forall u :: u in ms ==> u == ms[0]
    ensures |ms| == 2 ==> forall u :: u in ms ==> u == ms[0] || u == ms[1]
  {
  }

  /** A cell that is not live, next to two R and two G cells, is born
      R-and-G. */
  lemma HybridBirthExample(c: Cell, ns: seq<State>)
    requires !IsAlive(c.state)
    requires ns == [R, R, G, G, Dead, Dead, Dead, Dead]
    ensures CustomNext(c, ns).nextState == RG
  {
    HybridExampleCounts(ns);
    HybridRG();
    CustomBirthHybrid(c, ns, R, G);
  }

  lemma HybridRG()
    ensures Hybrid(R, G) == RG
  {
    LcmOfCodes();
    CodeRoundTrip(RG);
  }

  lemma HybridExampleCounts(ns: seq<State>)
    requires ns == [R, R, G, G, Dead, Dead, Dead, Dead]
    ensures multiset(ns)[R] == 2 && multiset(ns)[G] == 2
    ensures forall u :: Producible(u) && u != R && u != G ==> multiset(ns)[u] < 2
  {
    var ms := multiset(ns);
    assert ms == multiset{R, R, G, G} + multiset{Dead, Dead, Dead, Dead};
    assert ms[R] == 2 && ms[G] == 2;
    forall u | Producible(u) && u != R && u != G
      ensures ms[u] < 2
    {
      assert u !in ms;
    }
  }

  /** A cell that is not live, next to three R cells, is born R. */
  lemma UniqueBirthExample(c: Cell, ns: seq<State>)
    requires !IsAlive(c.state)
    requires ns == [R, Dead, R, Dead, R, Dead, Dead, Dead]
    ensures CustomNext(c, ns).nextState == R
  {
    UniqueExampleCounts(ns);
    CustomBirthUnique(c, ns, R);
  }

  lemma UniqueExampleCounts(ns: seq<State>)
    requires ns == [R, Dead, R, Dead, R, Dead, Dead, Dead]
    ensures multiset(ns)[R] == 3
    ensures forall u :: Producible(u) && u != R ==> multiset(ns)[u] < 3
  {
    var ms := multiset(ns);
    assert ms == multiset{R, R, R} + multiset{Dead, Dead, Dead, Dead, Dead};
    assert ms[R] == 3;
    forall u | Producible(u) && u != R
      ensures ms[u] < 3
    {
      assert u !in ms;
    }
  }

  /** A cell that survived as R and was then forced Dead by a reset keeps R
      staged; a three-way tie around it brings R back, although no rule
      gives birth on a three-way tie. */
  lemma StaleRevival(c: Cell, ns: seq<State>)
    requires c == Cell(Dead, R, 2)
    requires ns == [R, R, G, G, B, B, Dead, Dead]
    ensures CustomNext(c, ns) == Cell(Dead, R, 2)
  {
    StaleExampleCounts(ns);
    CustomBirthStale(c, ns, R, G, B);
  }

  lemma StaleExampleCounts(ns: seq<State>)
    requires ns == [R, R, G, G, B, B, Dead, Dead]
    ensures multiset(ns)[R] == 2 && multiset(ns)[G] == 2 && multiset(ns)[B] == 2
    ensures Top(ns, R)
  {
    var ms := multiset(ns);
    assert ms == multiset{R, R, G, G, B, B} + multiset{Dead, Dead};
    assert ms[R] == 2 && ms[G] == 2 && ms[B] == 2;
    forall u | Producible(u) && u != R && u != G && u != B
      ensures ms[u] == 0
    {
      assert u !in ms;
    }
  }
}
