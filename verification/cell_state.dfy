/** The cell states of the game and the integer codes the engine gives them
    (game.h:23-35). The codes matter: the Custom variant builds a hybrid
    species by taking the least common multiple of two codes and casting the
    result back to a state. */
module CellStates {
  import opened Outcomes

  datatype State = Dead | Alive | Old | R | G | B | RG | GB | BR | RGB

  /** The integer value of each enumerator. */
  function Code(s: State): (c: int)
    ensures 0 <= c <= 60
    ensures c <= 2 <==> s in {Dead, Alive, Old}
  {
    match s
    case Dead => 0
    case Alive => 1
    case Old => 2
    case R => 3
    case G => 4
    case B => 5
    case RG => 12
    case GB => 20
    case BR => 15
    case RGB => 60
  }

  /** The enumerator whose value is `c`, or None when no enumerator carries it
      (the cast `static_cast<CellState>` restricted to named values). */
  function FromCode(c: int): (r: Option<State>)
    ensures r.Some? ==> Code(r.value) == c
    ensures r.None? ==> forall s: State :: Code(s) != c
  {
    if c == 0 then Some(Dead)
    else if c == 1 then Some(Alive)
    else if c == 2 then Some(Old)
    else if c == 3 then Some(R)
    else if c == 4 then Some(G)
    else if c == 5 then Some(B)
    else if c == 12 then Some(RG)
    else if c == 20 then Some(GB)
    else if c == 15 then Some(BR)
    else if c == 60 then Some(RGB)
    else None
  }

  /** Distinct states carry distinct codes, so the cast back always recovers
      the state. */
  lemma CodeRoundTrip(s: State)
    ensures FromCode(Code(s)) == Some(s)
    ensures forall t: State :: Code(t) == Code(s) ==> t == s
  {
  }
}
