/** The contract every targeting strategy promises. */
module FireStrategy {
  import opened Wrappers
  import opened Coordinates

  /**
   * The documented postcondition of getNextTarget: a target lies in the opponent's
   * area and has not been fired at; no target is returned only when every coordinate of
   * the area has been fired at.
   */
  predicate Conforms(area: seq<Coordinate>, alreadyFired: set<Coordinate>, r: Option<Coordinate>) {
    match r
    case Some(t) => t in area && t !in alreadyFired
    case None => forall c :: c in area ==> c in alreadyFired
  }

  /** For a conforming result, "no target" holds exactly when no eligible coordinate exists. */
  lemma ConformsNoneIffExhausted(area: seq<Coordinate>, alreadyFired: set<Coordinate>, r: Option<Coordinate>)
    requires Conforms(area, alreadyFired, r)
    ensures r.None? <==> forall c :: c in area ==> c in alreadyFired
    ensures r.Some? ==> exists c :: c in area && c !in alreadyFired
  {
  }
}
