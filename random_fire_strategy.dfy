/** The default strategy: filter out fired cells, then pick one of the rest. */
module RandomFireStrategy {
  import opened Wrappers
  import opened Coordinates
  import FireStrategy

  /** The coordinates of the area not yet fired at, in the area's order. */
  function Candidates(area: seq<Coordinate>, alreadyFired: set<Coordinate>): (r: seq<Coordinate>)
    ensures forall c :: c in r <==> c in area && c !in alreadyFired
    ensures |r| <= |area|
  {
    if area == [] then []
    else (if area[0] in alreadyFired then [] else [area[0]]) + Candidates(area[1..], alreadyFired)
  }

  /** Filtering keeps the order: the candidates of a concatenation are the concatenated candidates. */
  lemma {:induction false} CandidatesAppend(a1: seq<Coordinate>, a2: seq<Coordinate>, alreadyFired: set<Coordinate>)
    ensures Candidates(a1 + a2, alreadyFired) == Candidates(a1, alreadyFired) + Candidates(a2, alreadyFired)
  {
    if a1 != [] {
      assert (a1 + a2)[1..] == a1[1..] + a2;
      CandidatesAppend(a1[1..], a2, alreadyFired);
    } else {
      assert a1 + a2 == a2;
    }
  }

  /**
   * Picks the next target. The source draws the index from java.util.Random; here any
   * index into the candidate list may be chosen.
   */
  method GetNextTarget(opponentAreaCoords: seq<Coordinate>, alreadyFired: set<Coordinate>)
    returns (target: Option<Coordinate>)
    ensures FireStrategy.Conforms(opponentAreaCoords, alreadyFired, target)
    ensures target.None? <==> Candidates(opponentAreaCoords, alreadyFired) == []
    ensures target.Some? ==> target.value in Candidates(opponentAreaCoords, alreadyFired)
  {
    var possibleTargets := Candidates(opponentAreaCoords, alreadyFired);
    if possibleTargets == [] {
      return None;
    }
    var i :| 0 <= i < |possibleTargets|;
    target := Some(possibleTargets[i]);
  }
}
