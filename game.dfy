/** The game: territory split, paired ship registration, and the alternating turn loop. */
module Games {
  import opened Wrappers
  import opened Coordinates
  import opened Ships
  import opened Battlefields
  import opened Players
  import RandomFireStrategy

  /** The conditions the source reports with an error message and then returns from. */
  datatype GameError =
    | InvalidSize(n: int)
    | NotInitialized
    | OddShipSize(size: int)
    | PlacementFailed(player: PlayerId, reason: PlacementError)
    | NotReady

  /**
   * What one turn did: no target was left (a draw), or a shot at `target` that destroyed
   * the ship `hit` (None for a miss), with both players' live counts after the shot.
   */
  datatype TurnEvent =
    | NoTarget(attacker: PlayerId)
    | Shot(attacker: PlayerId, target: Coordinate, hit: Option<string>, remainingA: nat, remainingB: nat)

  /** The live count of the player who was fired at. */
  function DefenderRemaining(e: TurnEvent): nat
    requires e.Shot?
  {
    if e.attacker == A then e.remainingB else e.remainingA
  }

  /** The turn ends the game: a draw, or the defender has no live ship left. */
  predicate Ends(e: TurnEvent) {
    e.NoTarget? || DefenderRemaining(e) == 0
  }

  /** The coordinates fired at in a sequence of turns. */
  function Targets(turns: seq<TurnEvent>): set<Coordinate> {
    if turns == [] then {}
    else Targets(turns[..|turns| - 1]) + (if turns[|turns| - 1].Shot? then {turns[|turns| - 1].target} else {})
  }

  /** The number of turns that fired a shot. */
  function ShotCount(turns: seq<TurnEvent>): nat {
    if turns == [] then 0
    else ShotCount(turns[..|turns| - 1]) + (if turns[|turns| - 1].Shot? then 1 else 0)
  }

  /** The attacker of the i-th turn (counting from 0): A moves first and the sides alternate. */
  function Mover(i: nat): PlayerId {
    if i == 0 then A else Other(Mover(i - 1))
  }

  /** Every turn is taken by its Mover. */
  predicate Alternates(turns: seq<TurnEvent>) {
    turns == [] || (Alternates(turns[..|turns| - 1]) && turns[|turns| - 1].attacker == Mover(|turns| - 1))
  }

  /** No turn in the sequence ends the game. */
  predicate Continues(turns: seq<TurnEvent>) {
    turns == [] || (Continues(turns[..|turns| - 1]) && !Ends(turns[|turns| - 1]))
  }

  /** Every shot lands in the columns of the side that was not attacking. */
  predicate Aimed(turns: seq<TurnEvent>, n: int) {
    turns == [] ||
    (Aimed(turns[..|turns| - 1], n) &&
     (turns[|turns| - 1].Shot? ==> InColumns(turns[|turns| - 1].target, Territory(Other(turns[|turns| - 1].attacker), n))))
  }

  /** A coordinate is a target exactly when some shot turn fired at it. */
  lemma {:induction false} TargetsMembers(turns: seq<TurnEvent>, c: Coordinate)
    ensures c in Targets(turns) <==> exists i :: 0 <= i < |turns| && turns[i].Shot? && turns[i].target == c
  {
    if turns != [] {
      var front := turns[..|turns| - 1];
      TargetsMembers(front, c);
      if c in Targets(front) {
        var i :| 0 <= i < |front| && front[i].Shot? && front[i].target == c;
        assert turns[i] == front[i];
      }
      if exists i :: 0 <= i < |turns| && turns[i].Shot? && turns[i].target == c {
        var i :| 0 <= i < |turns| && turns[i].Shot? && turns[i].target == c;
        if i < |front| {
          assert front[i] == turns[i];
        }
      }
    }
  }

  /** There are at most as many distinct targets as shots, and at most as many shots as turns. */
  lemma {:induction false} TargetsBound(turns: seq<TurnEvent>)
    ensures |Targets(turns)| <= ShotCount(turns) <= |turns|
  {
    if turns != [] {
      TargetsBound(turns[..|turns| - 1]);
    }
  }

  /** The sides alternate: A takes the even-numbered turns and B the odd-numbered ones. */
  lemma {:induction false} MoverParity(i: nat)
    ensures Mover(i) == if i % 2 == 0 then A else B
  {
    if i > 0 {
      MoverParity(i - 1);
    }
  }

  /** Alternates holds exactly when the i-th turn is taken by Mover(i), for every i. */
  lemma {:induction false} AlternatesAt(turns: seq<TurnEvent>)
    ensures Alternates(turns) <==> forall i :: 0 <= i < |turns| ==> turns[i].attacker == Mover(i)
  {
    if turns != [] {
      var front := turns[..|turns| - 1];
      AlternatesAt(front);
      assert forall i :: 0 <= i < |front| ==> front[i] == turns[i];
    }
  }

  /** Continues holds exactly when no turn of the sequence ends the game. */
  lemma {:induction false} ContinuesAt(turns: seq<TurnEvent>)
    ensures Continues(turns) <==> forall i :: 0 <= i < |turns| ==> !Ends(turns[i])
  {
    if turns != [] {
      var front := turns[..|turns| - 1];
      ContinuesAt(front);
      assert forall i :: 0 <= i < |front| ==> front[i] == turns[i];
    }
  }

  /** When there are as many distinct targets as shots, no two shots hit the same cell. */
  lemma {:induction false} DistinctTargets(turns: seq<TurnEvent>)
    requires |Targets(turns)| == ShotCount(turns)
    ensures forall i, j :: 0 <= i < j < |turns| && turns[i].Shot? && turns[j].Shot? ==>
              turns[i].target != turns[j].target
  {
    if turns != [] {
      var front := turns[..|turns| - 1];
      var last := turns[|turns| - 1];
      TargetsBound(front);
      if last.Shot? {
        assert |Targets(front) + {last.target}| <= |Targets(front)| + 1;
        assert last.target !in Targets(front);
        forall i | 0 <= i < |front| && front[i].Shot?
          ensures front[i].target != last.target
        {
          if front[i].target == last.target {
            TargetsMembers(front, last.target);
          }
        }
      }
      DistinctTargets(front);
      assert forall i :: 0 <= i < |front| ==> front[i] == turns[i];
    }
  }

  /**
   * A chronicle never fires at a cell twice: every shot targets a cell that was not in the
   * starting fired set, and no two shots share a target.
   */
  lemma ChronicleFiresOnce(turns: seq<TurnEvent>, n: int, fired0: set<Coordinate>,
                           turn: PlayerId, over: bool, fired: set<Coordinate>)
    requires Chronicle(turns, n, fired0, turn, over, fired)
    ensures Targets(turns) !! fired0
    ensures forall i, j :: 0 <= i < j < |turns| && turns[i].Shot? && turns[j].Shot? ==>
              turns[i].target != turns[j].target
  {
    TargetsBound(turns);
    var T := Targets(turns);
    assert |fired0 + T| == |fired0| + |T| - |fired0 * T| by {
      assert fired0 + T == fired0 + (T - fired0);
      assert T == (T - fired0) + fired0 * T;
    }
    DistinctTargets(turns);
  }

  /** Every cell of player p's territory on the n x n battlefield has been fired at. */
  ghost predicate Exhausted(p: PlayerId, fired: set<Coordinate>, n: int) {
    forall c :: InColumns(c, Territory(p, n)) && 0 <= c.y < n ==> c in fired
  }

  /**
   * The rules of one turn, on the values it reads and writes: `turn`, `fired` before the
   * turn and `turn'`, `over'`, `fired'` after it. The attacker is the side to move. With
   * the defender's territory exhausted the game ends as a draw and nothing else changes;
   * otherwise a fresh cell of the defender's territory joins the fired set, and the game
   * ends when the defender has no live ship left, or passes to the defender.
   */
  ghost predicate Played(e: TurnEvent, n: int, turn: PlayerId, fired: set<Coordinate>,
                         turn': PlayerId, over': bool, fired': set<Coordinate>)
  {
    && e.attacker == turn
    && (e.NoTarget? <==> Exhausted(Other(turn), fired, n))
    && (e.NoTarget? ==> over' && turn' == turn && fired' == fired)
    && (e.Shot? ==>
          && e.target !in fired && fired' == fired + {e.target}
          && InColumns(e.target, Territory(Other(turn), n)) && 0 <= e.target.y < n
          && (over' <==> DefenderRemaining(e) == 0)
          && turn' == if over' then turn else Other(turn))
  }

  /**
   * What a run of turns has done so far, starting from the fired set `fired0`: the sides
   * alternated with A first, every shot was aimed at the defender's territory, each shot
   * added one new cell to the fired set, no turn but the last ended the game, the game is
   * over exactly when the last turn ended it, and a draw left the defender's territory
   * exhausted. While the game goes on, `turn` is the next side to move; once it is over,
   * `turn` is still the side that took the last turn.
   */
  ghost predicate Chronicle(turns: seq<TurnEvent>, n: int, fired0: set<Coordinate>,
                            turn: PlayerId, over: bool, fired: set<Coordinate>)
  {
    && Alternates(turns)
    && Aimed(turns, n)
    && fired == fired0 + Targets(turns)
    && |fired| == |fired0| + ShotCount(turns)
    && (!over ==> turn == Mover(|turns|))
    && (over && turns != [] ==> turn == turns[|turns| - 1].attacker)
    && (turns != [] ==>
          && Continues(turns[..|turns| - 1])
          && (over <==> Ends(turns[|turns| - 1]))
          && (turns[|turns| - 1].NoTarget? ==> Exhausted(Other(turns[|turns| - 1].attacker), fired, n)))
  }

  /** Appending one turn unrolls each history function by one step. */
  lemma Unroll(turns: seq<TurnEvent>, e: TurnEvent, n: int)
    ensures var next := turns + [e];
      && next[..|turns|] == turns && next[|turns|] == e
      && Targets(next) == Targets(turns) + (if e.Shot? then {e.target} else {})
      && ShotCount(next) == ShotCount(turns) + (if e.Shot? then 1 else 0)
      && (Alternates(next) <==> Alternates(turns) && e.attacker == Mover(|turns|))
      && (Aimed(next, n) <==> Aimed(turns, n) && (e.Shot? ==> InColumns(e.target, Territory(Other(e.attacker), n))))
  {
    assert (turns + [e])[..|turns|] == turns;
  }

  /** A turn played by the rules extends a chronicle of a game still going on. */
  lemma ChronicleStep(turns: seq<TurnEvent>, e: TurnEvent, n: int, fired0: set<Coordinate>,
                      turn: PlayerId, fired: set<Coordinate>,
                      turn': PlayerId, over': bool, fired': set<Coordinate>)
    requires Chronicle(turns, n, fired0, turn, false, fired)
    requires Played(e, n, turn, fired, turn', over', fired')
    ensures Chronicle(turns + [e], n, fired0, turn', over', fired')
  {
    var next := turns + [e];
    Unroll(turns, e, n);
    assert Continues(next[..|next| - 1]) by {
      assert next[..|next| - 1] == turns;
    }
    if e.Shot? {
      assert |fired'| == |fired| + 1;
    }
  }

  /** The destroyed flag of each of the given ships. */
  ghost function Flags(ships: set<Ship>): (flags: map<Ship, bool>)
    reads ships
    ensures flags.Keys == ships
  {
    map s | s in ships :: s.destroyed
  }

  /**
   * The destroyed flags of a set of ships after the cells T have been fired at: a ship is
   * destroyed when it already was or when one of its cells is in T.
   */
  function Struck(flags: map<Ship, bool>, T: set<Coordinate>): (after: map<Ship, bool>)
    ensures after.Keys == flags.Keys
  {
    map s | s in flags :: flags[s] || s.cells * T != {}
  }

  /** Ships whose flags were set exactly by a shot at t carry the flags Struck gives. */
  lemma FlagsAfterShot(ships: set<Ship>, before: map<Ship, bool>, t: Coordinate)
    requires before.Keys == ships
    requires forall s :: s in ships ==> s.destroyed == (before[s] || t in s.cells)
    ensures Flags(ships) == Struck(before, {t})
  {
    forall s | s in ships ensures Flags(ships)[s] == Struck(before, {t})[s] {
      if t in s.cells {
        assert t in s.cells * {t};
      } else {
        assert s.cells * {t} == {};
      }
    }
  }

  /** Firing at no cell changes no flag. */
  lemma StruckNone(flags: map<Ship, bool>)
    ensures Struck(flags, {}) == flags
  {
  }

  /** Firing at T and then at U flags the same ships as firing at T and U together. */
  lemma StruckTwice(flags: map<Ship, bool>, T: set<Coordinate>, U: set<Coordinate>)
    ensures Struck(Struck(flags, T), U) == Struck(flags, T + U)
  {
    forall s | s in flags ensures Struck(Struck(flags, T), U)[s] == Struck(flags, T + U)[s] {
      assert s.cells * (T + U) == s.cells * T + s.cells * U;
    }
  }

  /** Player A owns columns [0, n/2 - 1], player B columns [n/2, n - 1]. */
  function Territory(p: PlayerId, n: int): Boundary {
    if p == A then Boundary(0, n / 2 - 1) else Boundary(n / 2, n - 1)
  }

  /**
   * For a positive even n the two territories are non-empty, equally wide, contiguous,
   * disjoint, and together cover the columns [0, n - 1].
   */
  lemma TerritoriesPartition(n: int)
    requires n > 0 && n % 2 == 0
    ensures Territory(A, n).minCol == 0 && Territory(B, n).maxCol == n - 1
    ensures Territory(A, n).maxCol + 1 == Territory(B, n).minCol
    ensures Territory(A, n).minCol <= Territory(A, n).maxCol && Territory(B, n).minCol <= Territory(B, n).maxCol
    ensures Territory(A, n).maxCol - Territory(A, n).minCol == Territory(B, n).maxCol - Territory(B, n).minCol
    ensures forall c: Coordinate :: 0 <= c.x < n <==> InColumns(c, Territory(A, n)) || InColumns(c, Territory(B, n))
    ensures forall c: Coordinate :: !(InColumns(c, Territory(A, n)) && InColumns(c, Territory(B, n)))
  {
  }

  /**
   * The initialised arena: the size is positive and even, each player knows its name and
   * territory, every fleet ship is on the battlefield under its own id, and every placed
   * ship lies in its owner's territory.
   */
  ghost predicate Arena(bf: Battlefield, pa: Player, pb: Player)
    reads bf, bf.grid, pa, pb
  {
    var n := bf.size;
    && n > 0 && n % 2 == 0
    && bf.Valid()
    && pa.name == A && pa.boundary == Territory(A, n) && pa.battlefieldSize == n
    && pb.name == B && pb.boundary == Territory(B, n) && pb.battlefieldSize == n
    && pa.Keyed() && pb.Keyed()
    && (forall k :: k in pa.fleet ==> pa.fleet[k] in bf.placed)
    && (forall k :: k in pb.fleet ==> pb.fleet[k] in bf.placed)
    && (forall s, c :: s in bf.placed && c in s.cells ==> InColumns(c, Territory(s.owner, n)))
  }

  /** An empty n x n battlefield and the two players with their halves of it. */
  method NewArena(n: int) returns (bf: Battlefield, a: Player, b: Player)
    requires n > 0 && n % 2 == 0
    ensures fresh(bf) && fresh(bf.grid) && fresh(a) && fresh(b) && a != b
    ensures Arena(bf, a, b)
    ensures bf.size == n && bf.placed == {}
    ensures forall y, x :: 0 <= y < n && 0 <= x < n ==> bf.grid[y, x] == null
    ensures a.fleet == map[] && b.fleet == map[] && a.firedShots == {} && b.firedShots == {}
  {
    bf := new Battlefield(n);
    a := new Player(A, Territory(A, n), n);
    b := new Player(B, Territory(B, n), n);
  }

  /**
   * The game engine. Before initGame there is no battlefield and no player; afterwards
   * Valid() ties the battlefield, both players and the global fired set together.
   */
  class Game {
    var battlefield: Battlefield?
    var playerA: Player?
    var playerB: Player?
    var currentTurn: PlayerId
    var isGameOver: bool
    var allFiredCoordinates: set<Coordinate>
    ghost var Repr: set<object>

    ghost predicate Valid()
      reads this, Repr
    {
      && this in Repr
      && (battlefield == null ==> playerA == null && playerB == null && Repr == {this})
      && (battlefield != null ==>
            && playerA != null && playerB != null && playerA != playerB
            && Repr == {this, battlefield, battlefield.grid, playerA, playerB}
            && Arena(battlefield, playerA, playerB)
            && (forall c :: c in allFiredCoordinates ==> InGrid(c, battlefield.size)))
    }

    /**
     * One half of addShip: places `ship` inside its owner's territory and, when that
     * succeeds, adds it to the owner's fleet under its id.
     */
    method PlaceAndEnlist(ship: Ship) returns (r: Outcome<PlacementError>)
      requires Valid() && battlefield != null
      modifies battlefield, battlefield.grid, PlayerOf(ship.owner)
      ensures Valid()
      ensures r.Pass? <==> old(battlefield.Fits(ship.cells, Territory(ship.owner, battlefield.size)))
      ensures r.Fail? ==> (exists c :: c in ship.cells && old(battlefield.Violation(c, Territory(ship.owner, battlefield.size))) == Some(r.error))
      ensures r.Fail? ==> unchanged(battlefield, battlefield.grid, PlayerOf(ship.owner))
      ensures r.Pass? ==> battlefield.placed == old(battlefield.placed) + {ship}
      ensures r.Pass? ==> PlayerOf(ship.owner).fleet == old(PlayerOf(ship.owner).fleet)[ship.id := ship]
      ensures r.Pass? ==> forall y, x :: 0 <= y < battlefield.size && 0 <= x < battlefield.size ==>
                battlefield.grid[y, x] == if Coordinate(x, y) in ship.cells then ship else old(battlefield.grid[y, x])
    {
      var n := battlefield.size;
      var player := PlayerOf(ship.owner);
      r := battlefield.PlaceShip(ship, Territory(ship.owner, n));
      if r.Pass? {
        player.AddShipToFleet(ship);
      }
    }

    /** The ship of side `size` centred at (x, y) would fit in player p's territory. */
    ghost predicate FitsFor(p: PlayerId, x: int, y: int, size: int)
      reads this, battlefield, battlefield.grid
      requires battlefield != null && battlefield.Valid()
    {
      battlefield.Fits(Footprint(Coordinate(x, y), size), Territory(p, battlefield.size))
    }

    /** The player with the given name; null before initGame. */
    function PlayerOf(p: PlayerId): Player?
      reads this
    {
      if p == A then playerA else playerB
    }

    /** Every ship on the battlefield; these are the only objects whose flag a turn may set. */
    ghost function Ships(): set<Ship>
      reads this, battlefield
    {
      if battlefield == null then {} else battlefield.placed
    }

    /** A new game has no battlefield, no players and no fired cells. */
    constructor ()
      ensures Valid()
      ensures battlefield == null && playerA == null && playerB == null
      ensures !isGameOver && allFiredCoordinates == {}
    {
      battlefield := null;
      playerA := null;
      playerB := null;
      currentTurn := A;
      isGameOver := false;
      allFiredCoordinates := {};
      Repr := {this};
    }

    /**
     * Starts a game on an n x n battlefield. A size that is not positive and even is
     * reported and changes nothing; otherwise the battlefield, both players and the fired
     * set are created afresh.
     */
    method InitGame(n: int) returns (r: Outcome<GameError>)
      requires Valid()
      modifies this
      ensures Valid()
      ensures r.Fail? <==> n <= 0 || n % 2 != 0
      ensures r.Fail? ==> r.error == InvalidSize(n) && unchanged(this)
      ensures r.Pass? ==> battlefield != null && fresh(battlefield) && fresh(battlefield.grid)
      ensures r.Pass? ==> fresh(playerA) && fresh(playerB)
      ensures r.Pass? ==> battlefield.size == n && battlefield.placed == {}
      ensures r.Pass? ==> forall y, x :: 0 <= y < n && 0 <= x < n ==> battlefield.grid[y, x] == null
      ensures r.Pass? ==> playerA.boundary == Boundary(0, n / 2 - 1) && playerB.boundary == Boundary(n / 2, n - 1)
      ensures r.Pass? ==> playerA.fleet == map[] && playerB.fleet == map[]
      ensures r.Pass? ==> playerA.firedShots == {} && playerB.firedShots == {}
      ensures r.Pass? ==> !isGameOver && allFiredCoordinates == {} && currentTurn == old(currentTurn)
    {
      if n <= 0 || n % 2 != 0 {
        return Fail(InvalidSize(n));
      }
      var bf, a, b := NewArena(n);
      battlefield, playerA, playerB := bf, a, b;
      isGameOver, allFiredCoordinates := false, {};
      Repr := {this, bf, bf.grid, a, b};
      r := Pass;
    }

    /**
     * One half of addShip: builds player p's ship `shipId` of side `size` centred at (x, y),
     * places it in p's territory and adds it to p's fleet. An odd size is refused before
     * anything is placed; a placement that breaks a rule changes nothing.
     */
    method Enlist(p: PlayerId, shipId: string, size: int, x: int, y: int) returns (r: Outcome<GameError>)
      requires Valid() && battlefield != null
      modifies battlefield, battlefield.grid, PlayerOf(p)
      ensures Valid()
      ensures size % 2 != 0 ==> r == Fail(OddShipSize(size))
      ensures size % 2 == 0 ==> (r.Pass? <==> old(FitsFor(p, x, y, size)))
      ensures r.Fail? ==> unchanged(battlefield, battlefield.grid, PlayerOf(p))
      ensures r.Fail? && size % 2 == 0 ==>
                && r.error.PlacementFailed? && r.error.player == p
                && exists c :: c in Footprint(Coordinate(x, y), size) &&
                     old(battlefield.Violation(c, Territory(p, battlefield.size))) == Some(r.error.reason)
      ensures r.Pass? ==>
                && shipId in PlayerOf(p).fleet && fresh(PlayerOf(p).fleet[shipId])
                && PlayerOf(p).fleet == old(PlayerOf(p).fleet)[shipId := PlayerOf(p).fleet[shipId]]
                && PlayerOf(p).fleet[shipId].cells == Footprint(Coordinate(x, y), size)
                && PlayerOf(p).fleet[shipId].owner == p && !PlayerOf(p).fleet[shipId].destroyed
                && battlefield.placed == old(battlefield.placed) + {PlayerOf(p).fleet[shipId]}
      ensures forall c :: InGrid(c, battlefield.size) && !InColumns(c, Territory(p, battlefield.size)) ==>
                battlefield.grid[c.y, c.x] == old(battlefield.grid[c.y, c.x])
    {
      var ship := Ship.Create(shipId, size, x, y, p);
      if ship == null {
        return Fail(OddShipSize(size));
      }
      var placed := PlaceAndEnlist(ship);
      if placed.Fail? {
        return Fail(PlacementFailed(p, placed.error));
      }
      r := Pass;
    }

    /**
     * Registers the ship `shipId` of the given side for both players, A's centred at
     * (xA, yA) and B's at (xB, yB). A's ship is placed and added to A's fleet before B's is
     * tried, so when B's placement fails A's ship stays: the pair is not atomic.
     */
    method AddShip(shipId: string, size: int, xA: int, yA: int, xB: int, yB: int) returns (r: Outcome<GameError>)
      requires Valid()
      modifies Repr
      ensures Valid() && unchanged(this)
      ensures old(battlefield) == null ==> r == Fail(NotInitialized)
      ensures old(battlefield) != null && size % 2 != 0 ==> r == Fail(OddShipSize(size)) && unchanged(Repr)
      ensures old(battlefield) != null && size % 2 == 0 ==>
                (r.Pass? <==> old(FitsFor(A, xA, yA, size) && FitsFor(B, xB, yB, size)))
      ensures old(battlefield) != null && size % 2 == 0 && !old(FitsFor(A, xA, yA, size)) ==>
                r.Fail? && r.error.PlacementFailed? && r.error.player == A && unchanged(Repr)
      ensures r.Fail? && r.error.PlacementFailed? && r.error.player == A ==>
                exists c :: c in Footprint(Coordinate(xA, yA), size) &&
                  old(battlefield.Violation(c, Territory(A, battlefield.size))) == Some(r.error.reason)
      ensures old(battlefield) != null && size % 2 == 0 && old(FitsFor(A, xA, yA, size)) ==>
                && shipId in playerA.fleet && fresh(playerA.fleet[shipId])
                && playerA.fleet == old(playerA.fleet)[shipId := playerA.fleet[shipId]]
                && playerA.fleet[shipId].cells == Footprint(Coordinate(xA, yA), size)
                && playerA.fleet[shipId].owner == A && !playerA.fleet[shipId].destroyed
      ensures r.Fail? && r.error.PlacementFailed? && r.error.player == B ==>
                && old(FitsFor(A, xA, yA, size))
                && (exists c :: c in Footprint(Coordinate(xB, yB), size) &&
                      battlefield.Violation(c, Territory(B, battlefield.size)) == Some(r.error.reason))
                && battlefield.placed == old(battlefield.placed) + {playerA.fleet[shipId]}
                && playerB.fleet == old(playerB.fleet)
      ensures r.Pass? ==>
                && shipId in playerB.fleet && fresh(playerB.fleet[shipId])
                && playerB.fleet == old(playerB.fleet)[shipId := playerB.fleet[shipId]]
                && playerB.fleet[shipId].cells == Footprint(Coordinate(xB, yB), size)
                && playerB.fleet[shipId].owner == B && !playerB.fleet[shipId].destroyed
                && battlefield.placed == old(battlefield.placed) + {playerA.fleet[shipId], playerB.fleet[shipId]}
    {
      if battlefield == null {
        return Fail(NotInitialized);
      }
      var n := battlefield.size;
      r := Enlist(A, shipId, size, xA, yA);
      if r.Fail? {
        return;
      }
      // A's ship lies in A's columns, so B's territory reads as it did before.
      assert FitsFor(B, xB, yB, size) <==> old(FitsFor(B, xB, yB, size));
      r := Enlist(B, shipId, size, xB, yB);
    }

    /**
     * The attacker's pick: a cell of the defender's territory not fired at yet, chosen by the
     * random strategy over the defender's territory list, or None when every such cell has
     * been fired at.
     */
    method SelectTarget() returns (target: Option<Coordinate>)
      requires Valid() && battlefield != null
      ensures target.None? <==> Exhausted(Other(currentTurn), allFiredCoordinates, battlefield.size)
      ensures target.Some? ==>
                && target.value !in allFiredCoordinates
                && InColumns(target.value, Territory(Other(currentTurn), battlefield.size))
                && 0 <= target.value.y < battlefield.size
    {
      var n := battlefield.size;
      var opponentId := Other(currentTurn);
      var opponent := PlayerOf(opponentId);
      var area := opponent.GetAllTerritoryCoords();
      forall c ensures c in area <==> InColumns(c, Territory(opponentId, n)) && 0 <= c.y < n {
        TerritoryCellsMembers(Territory(opponentId, n), n, c);
      }
      target := RandomFireStrategy.GetNextTarget(area, allFiredCoordinates);
    }

    /**
     * The shot at t: t joins the fired set, and the ship the grid holds at t, if it belongs
     * to the defender, is destroyed whole; every other ship keeps its flag.
     */
    method Fire(t: Coordinate) returns (hit: Option<string>)
      requires Valid() && battlefield != null && InGrid(t, battlefield.size)
      requires InColumns(t, Territory(Other(currentTurn), battlefield.size))
      modifies this, battlefield.placed
      ensures Valid() && Repr == old(Repr)
      ensures battlefield == old(battlefield) && playerA == old(playerA) && playerB == old(playerB)
      ensures unchanged(battlefield, playerA, playerB)
      ensures currentTurn == old(currentTurn) && isGameOver == old(isGameOver)
      ensures allFiredCoordinates == old(allFiredCoordinates) + {t}
      ensures hit.Some? <==> exists s :: s in battlefield.placed && t in s.cells
      ensures hit.Some? ==> exists s :: s in battlefield.placed && t in s.cells && s.id == hit.value && s.owner == Other(currentTurn)
      ensures forall s :: s in battlefield.placed ==> s.destroyed == (old(s.destroyed) || t in s.cells)
    {
      allFiredCoordinates := allFiredCoordinates + {t};
      var defender := Other(currentTurn);
      var hitShip := battlefield.ShipAt(t.x, t.y);
      hit := None;
      // Every ship covering t is the one the grid holds there, and it belongs to the defender.
      forall s | s in battlefield.placed && t in s.cells ensures s == hitShip && s.owner == defender {
        assert battlefield.grid[t.y, t.x] == s;
      }
      if hitShip != null && hitShip.owner == defender {
        hitShip.Destroy();
        hit := Some(hitShip.id);
      }
    }

    /**
     * Closes a turn: both live counts are taken, then the game ends when the defender has
     * none left, and otherwise the turn passes to the defender.
     */
    method Conclude() returns (shipsA: nat, shipsB: nat)
      requires Valid() && battlefield != null
      modifies this
      ensures Valid() && Repr == old(Repr)
      ensures battlefield == old(battlefield) && playerA == old(playerA) && playerB == old(playerB)
      ensures unchanged(battlefield, playerA, playerB) && unchanged(battlefield.placed)
      ensures allFiredCoordinates == old(allFiredCoordinates)
      ensures shipsA == old(playerA.RemainingShips()) && shipsB == old(playerB.RemainingShips())
      ensures shipsA == 0 <==> Defeated(playerA)
      ensures shipsB == 0 <==> Defeated(playerB)
      ensures isGameOver == (old(isGameOver) || (if old(currentTurn) == A then shipsB else shipsA) == 0)
      ensures currentTurn == if (if old(currentTurn) == A then shipsB else shipsA) == 0 then old(currentTurn) else Other(old(currentTurn))
    {
      shipsA := playerA.RemainingShips();
      shipsB := playerB.RemainingShips();
      assert shipsA == 0 <==> Defeated(playerA);
      assert shipsB == 0 <==> Defeated(playerB);
      var opponentId := Other(currentTurn);
      if (if opponentId == A then shipsA else shipsB) == 0 {
        isGameOver := true;
      } else {
        currentTurn := opponentId;
      }
    }

    /**
     * The second half of a turn, once the attacker has picked the fresh cell t of the
     * defender's territory: the shot is fired and the turn is closed.
     */
    method ShootAt(t: Coordinate) returns (e: TurnEvent)
      requires Valid() && battlefield != null && !isGameOver
      requires t !in allFiredCoordinates && 0 <= t.y < battlefield.size
      requires InColumns(t, Territory(Other(currentTurn), battlefield.size))
      modifies this, battlefield.placed
      ensures Valid() && Repr == old(Repr)
      ensures battlefield == old(battlefield) && playerA == old(playerA) && playerB == old(playerB)
      ensures unchanged(battlefield, playerA, playerB)
      ensures e.Shot? && e.attacker == old(currentTurn) && e.target == t
      ensures allFiredCoordinates == old(allFiredCoordinates) + {t}
      ensures isGameOver <==> DefenderRemaining(e) == 0
      ensures currentTurn == if isGameOver then old(currentTurn) else Other(old(currentTurn))
      ensures forall s :: s in battlefield.placed ==> s.destroyed == (old(s.destroyed) || t in s.cells)
      ensures e.hit.Some? <==> exists s :: s in battlefield.placed && t in s.cells
      ensures e.hit.Some? ==> exists s :: s in battlefield.placed && t in s.cells && s.id == e.hit.value
      ensures e.remainingA == playerA.RemainingShips() && e.remainingB == playerB.RemainingShips()
      ensures e.remainingA == 0 <==> Defeated(playerA)
      ensures e.remainingB == 0 <==> Defeated(playerB)
    {
      var attacker := currentTurn;
      TerritoriesPartition(battlefield.size);
      var hit := Fire(t);
      var shipsA, shipsB := Conclude();
      e := Shot(attacker, t, hit, shipsA, shipsB);
    }

    /**
     * One turn of the loop. The attacker's strategy picks a cell of the defender's
     * territory not yet fired at; with none left the game ends in a draw. Otherwise the
     * cell joins the fired set, a ship of the defender covering it is destroyed whole, and
     * the game ends when the defender has no live ship, or passes to the defender.
     */
    method PlayTurn() returns (e: TurnEvent)
      requires Valid() && battlefield != null && !isGameOver
      modifies this, battlefield.placed
      ensures Valid() && Repr == old(Repr)
      ensures battlefield == old(battlefield) && playerA == old(playerA) && playerB == old(playerB)
      ensures unchanged(battlefield, playerA, playerB)
      ensures Played(e, battlefield.size, old(currentTurn), old(allFiredCoordinates), currentTurn, isGameOver, allFiredCoordinates)
      ensures Flags(battlefield.placed) == Struck(old(Flags(battlefield.placed)), if e.Shot? then {e.target} else {})
    {
      ghost var before := Flags(battlefield.placed);
      var target := SelectTarget();
      if target.None? {
        isGameOver := true;
        StruckNone(Flags(battlefield.placed));
        return NoTarget(currentTurn);
      }
      e := ShootAt(target.value);
      FlagsAfterShot(battlefield.placed, before, target.value);
    }

    /**
     * Runs the game: refused before initGame or while A's fleet is empty; otherwise A moves
     * first and turns alternate until a side has no live ship or the attacker has no target
     * left. Each fired cell is fired once, every hit destroys the covering ship, and only
     * the last turn ends the game.
     */
    method StartGame() returns (r: Outcome<GameError>, turns: seq<TurnEvent>)
      requires Valid()
      modifies this, Ships()
      ensures Valid() && Repr == old(Repr)
      ensures battlefield == old(battlefield) && playerA == old(playerA) && playerB == old(playerB)
      ensures r.Fail? <==> old(battlefield == null || playerA.fleet == map[])
      ensures r.Fail? ==> r.error == NotReady && turns == [] && unchanged(this) && unchanged(Ships())
      ensures r.Pass? ==> isGameOver && (turns == [] <==> old(isGameOver))
      ensures r.Pass? && turns == [] ==> currentTurn == A
      ensures r.Pass? ==> Chronicle(turns, battlefield.size, old(allFiredCoordinates), currentTurn, isGameOver, allFiredCoordinates)
      ensures r.Pass? ==> Flags(battlefield.placed) == Struck(old(Flags(battlefield.placed)), Targets(turns))
    {
      turns := [];
      if battlefield == null || playerA.fleet == map[] {
        return Fail(NotReady), turns;
      }
      r := Pass;
      currentTurn := A;
      var n := battlefield.size;
      StruckNone(Flags(battlefield.placed));
      while !isGameOver
        invariant Valid() && Repr == old(Repr)
        invariant battlefield == old(battlefield) && playerA == old(playerA) && playerB == old(playerB)
        invariant unchanged(battlefield, playerA, playerB)
        invariant turns == [] ==> isGameOver == old(isGameOver) && currentTurn == A
        invariant old(isGameOver) ==> turns == []
        invariant Chronicle(turns, n, old(allFiredCoordinates), currentTurn, isGameOver, allFiredCoordinates)
        invariant Flags(battlefield.placed) == Struck(old(Flags(battlefield.placed)), Targets(turns))
        decreases if isGameOver then 0 else 1, n * n - |allFiredCoordinates|
      {
        GridBound(allFiredCoordinates, n);
        var turn, fired := currentTurn, allFiredCoordinates;
        var e := PlayTurn();
        ChronicleStep(turns, e, n, old(allFiredCoordinates), turn, fired, currentTurn, isGameOver, allFiredCoordinates);
        Unroll(turns, e, n);
        StruckTwice(old(Flags(battlefield.placed)), Targets(turns), if e.Shot? then {e.target} else {});
        turns := turns + [e];
        GridBound(allFiredCoordinates, n);
      }
    }
  }
}
