# Battleship simulator — a verified Dafny model

This project models the core of a two-player Battleship simulator. The game is played on
an N x N battlefield, with N positive and even. Player A owns the left half of the columns
and player B the right half. Every ship is a square of even side, and each side has one
ship for every id registered. Each turn, the side to move fires at a cell of the
opponent's half that nobody has fired at yet. A shot that lands on a ship destroys the
whole ship. The game ends in a win when the defender has no live ship left, and in a draw
when the attacker has no cell left to fire at.

The model follows the structure of the Java sources, file by file:

| file | models |
|---|---|
| `coordinates.dfy` | The `Coordinate` and `Boundary` records, the two player names, rectangles of cells and their sizes. |
| `ship.dfy` | `Ship`: the footprint computed from centre and side (the source's nested loops), the odd-size refusal, the destroyed flag and the text label. |
| `battlefield.dfy` | `Battlefield`: the `array2` grid, the two-pass placement (validate every cell, then write), and `getShipAt`. |
| `player.dfy` | `Player`: the fleet map, the live-ship count, and the column-major list of territory cells. |
| `fire_strategy.dfy` | The documented contract of `FireStrategy.getNextTarget`. |
| `random_fire_strategy.dfy` | The filter of already-fired cells and the choice of one candidate. |
| `game.dfy` | `Game`: `initGame`, `addShip` and the `startGame` turn loop, with the turn history the loop produces. |

State the source changes in place is modelled with classes: `Ship.destroyed`, the
battlefield grid, the fleet map and the game's fields. Values are modelled with datatypes
and functions. A ghost set `placed` records the ships written onto the grid.
`Battlefield.Valid` ties `placed` to the grid: each occupied cell holds a placed ship that
covers it, and each cell of a placed ship holds that ship. So no cell belongs to two ships.

`Game.Valid` adds the following:
- the size is positive and even;
- each player knows its half;
- every fleet ship is on the battlefield under its own id;
- every placed ship lies in its owner's half;
- every fired cell is on the grid.

`startGame` returns the turns it played as a sequence of `TurnEvent`s. This log stands in
for the lines the source prints. Its properties are given by `Chronicle`:
- the sides alternate, with A first;
- every shot lands in the defender's half;
- each shot adds a new cell to the global fired set;
- only the last turn ends the game;
- a draw happens only when the defender's half is exhausted.

`Played` states the rule of a single turn on plain values, and `ChronicleStep` proves that a
turn played by that rule extends the chronicle. The loop terminates because the fired set
grows with every shot and is bounded by N * N.

When the same id is registered twice, the new ship replaces the fleet entry, as
`HashMap.put` does. The earlier ship stays on the grid: it can still be hit, but it no
longer counts towards the live total.

Each side fires only into the other's half, so in a 6 x 6 game up to 36 cells can be
fired, and a draw adds one last turn that fires nothing. `Chronicle` relates the number of
turns, the number of shots and the size of the fired set.

## Model

| member | source | states |
|---|---|---|
| `Coordinates.GridBound` | Battleship/src/Game.java:186-200 | Any set of cells on the n x n grid has at most n * n elements, so the fired set is bounded and the turn loop terminates. |
| `Ships.CalculateOccupiedCells` | Battleship/src/Ship.java:85-102 | The nested loops collect exactly the cells with x in [cx - size/2, cx + size/2) and y in [cy - size/2, cy + size/2). |
| `Ships.FootprintSize` | Battleship/src/Ship.java:85-101 | A ship of positive even side covers size * size cells; an even side of zero or less covers none. |
| `Ships.FootprintExample` | Battleship/src/Ship.java:19-23 | Side 2 centred at (1, 5) covers exactly (0, 4), (1, 4), (0, 5) and (1, 5). |
| `Ships.AdjacentFootprintsDisjoint` | Battleship/src/Battlefield.java:60 | Two equal ships side by side share an edge but no cell, so placement accepts them. |
| `Ships.Ship.constructor` | Battleship/src/Ship.java:64-74 | A new ship keeps its id, side, centre and owner, covers its footprint and is not destroyed. |
| `Ships.Ship.Create` | Battleship/src/Ship.java:64-67 | No ship is built exactly when the side is odd; otherwise the ship is fresh and live, with the requested fields. |
| `Ships.Ship.Destroy` | Battleship/src/Ship.java:132 | The ship is destroyed afterwards, whether or not it was before. |
| `Ships.Label` | Battleship/src/Ship.java:150-152 | The text form is the owner's one-letter name, a dash, then the id. |
| `Ships.Ship.ToString` | Battleship/src/Ship.java:150-152 | A ship's text form is its owner's letter and a dash, followed by its own id. |
| `Ships.LabelInjective` | Battleship/src/Ship.java:150-152 | Two equal labels come from the same owner and the same id. |
| `Battlefields.Battlefield.constructor` | Battleship/src/Battlefield.java:44-47 | A new battlefield has size n, no placed ship, and all n * n cells empty. |
| `Battlefields.Battlefield.PlaceShip` | Battleship/src/Battlefield.java:66-92 | Placement succeeds exactly when every footprint cell is on the grid, in the boundary's columns and empty. On failure nothing changes, and the error is the first rule that some cell breaks. On success the footprint cells hold the ship and every other cell is unchanged. |
| `Battlefields.Battlefield.ShipAt` | Battleship/src/Battlefield.java:104-109 | The result is null exactly when no placed ship covers the cell (in particular off the grid); otherwise it is a placed ship covering the cell. |
| `Battlefields.PlacedFootprintsDisjoint` | Battleship/src/Battlefield.java:67-91 | Two different placed ships share no cell. |
| `Players.Player.constructor` | Battleship/src/Player.java:51-57 | A new player has its name, boundary and size, an empty fleet and no recorded shots. |
| `Players.Player.AddShipToFleet` | Battleship/src/Player.java:68-70 | The fleet maps the ship's id to the ship, replacing an earlier entry; every other entry is kept. |
| `Players.LiveCountRange` | Battleship/src/Player.java:81-83 | The number of live ships is at most the fleet size, and is zero exactly when every ship is destroyed. |
| `Players.LiveCountDestroy` | Battleship/src/Player.java:81-83 | Destroying a live ship lowers the count by one; destroying a destroyed ship leaves it unchanged. |
| `Players.Player.RemainingShips` | Battleship/src/Player.java:81-83 | The count of fleet ships not yet destroyed is at most the fleet size, and zero exactly when the whole fleet is destroyed. |
| `Players.Player.GetAllTerritoryCoords` | Battleship/src/Player.java:95-105 | The nested loops list the territory column by column, each column from row 0 to n - 1. |
| `Players.TerritoryCellsMembers` | Battleship/src/Player.java:95-105 | The list holds exactly the cells with minCol <= x <= maxCol and 0 <= y < n. |
| `Players.TerritoryCellsOrdered` | Battleship/src/Player.java:98-103 | The list has (maxCol - minCol + 1) * n entries, strictly ascending in column then row, so no cell appears twice. |
| `FireStrategy.ConformsNoneIffExhausted` | Battleship/src/FireStrategy.java:23-30 | For a result meeting the interface contract, "no target" holds exactly when every area cell has been fired at; a target means an eligible cell exists. |
| `RandomFireStrategy.Candidates` | Battleship/src/RandomFireStrategy.java:39-41 | The candidates are exactly the area cells not fired at, and there are no more of them than area cells. |
| `RandomFireStrategy.CandidatesAppend` | Battleship/src/RandomFireStrategy.java:39-41 | Filtering keeps the area's order: the candidates of a concatenation are the concatenation of the candidates. |
| `RandomFireStrategy.GetNextTarget` | Battleship/src/RandomFireStrategy.java:37-50 | No target exactly when there are no candidates; otherwise the target is one of the candidates, so it meets the interface contract. |
| `Games.TerritoriesPartition` | Battleship/src/Game.java:104-105 | For positive even n the two halves are non-empty, equally wide, adjacent and disjoint, and together cover the columns 0 .. n - 1. |
| `Games.NewArena` | Battleship/src/Game.java:103-105 | Creates an empty n x n battlefield and two players with empty fleets owning the left and right halves. |
| `Games.Game.constructor` | Battleship/src/Game.java:73-76 | A new game has no battlefield, no players and no fired cells. |
| `Games.Game.InitGame` | Battleship/src/Game.java:98-109 | A size that is not positive and even is refused and changes nothing. Otherwise the battlefield and both players are new, the halves are [0, n/2 - 1] and [n/2, n - 1], the grid and fleets are empty, the game is not over and no cell has been fired at. |
| `Games.Game.Enlist` | Battleship/src/Game.java:139-148 | One player's half of addShip. An odd side is refused. Otherwise the ship is placed and enlisted exactly when it fits the player's half, and a failure changes nothing and names the broken rule. |
| `Games.Game.PlaceAndEnlist` | Battleship/src/Game.java:141-142 | The ship is placed and added to its owner's fleet exactly when it fits; otherwise nothing changes. |
| `Games.Game.AddShip` | Battleship/src/Game.java:132-154 | Refused before initGame. Both ships are added exactly when A's ship fits A's half and B's ship fits B's half. When B's ship is refused, A's ship stays placed and in A's fleet. |
| `Games.Game.SelectTarget` | Battleship/src/Game.java:187-199 | No target exactly when the defender's half is exhausted; otherwise the target is a cell of the defender's half not yet fired at. |
| `Games.Game.Fire` | Battleship/src/Game.java:200-208 | The target joins the fired set. A hit is reported exactly when a placed ship covers the target, and that ship is the defender's. The ships covering the target are destroyed and every other flag is kept. |
| `Games.Game.Conclude` | Battleship/src/Game.java:212-226 | Both live counts are taken, each zero exactly when that fleet is destroyed. The game ends when the defender's count is zero; otherwise the turn passes to the defender. |
| `Games.Game.ShootAt` | Battleship/src/Game.java:200-226 | A shot at a fresh cell of the defender's half adds that cell to the fired set and destroys exactly the ships covering it. The reported hit names a ship covering the cell, and the reported live counts are the players' remaining ships after the shot. It then ends the game or passes the turn as the defender's count dictates. |
| `Games.Game.PlayTurn` | Battleship/src/Game.java:187-226 | One iteration obeys `Played`: a draw when the defender's half is exhausted, and otherwise a shot at a fresh cell of that half. The destroyed flags become `Struck` by the cell fired at. |
| `Games.Game.StartGame` | Battleship/src/Game.java:178-228 | Refused exactly before initGame or while A's fleet is empty; a refusal changes neither the game nor any ship. Otherwise the game ends; when it was already over, no turn is played and only the turn is reset to A. The turns it played form a `Chronicle` from the earlier fired set. The destroyed flags are those `Struck` by all the cells fired at. |
| `Games.ChronicleStep` | Battleship/src/Game.java:186-227 | A turn played by the rules extends the record of a game still going on: alternation, aiming, the fired set and its size, and the end condition. |
| `Games.ChronicleFiresOnce` | Battleship/src/Game.java:192-200 | Across a whole game no cell is fired at twice: no shot targets an already-fired cell, and no two shots share a target. |
| `Games.DistinctTargets` | Battleship/src/Game.java:200 | When there are as many distinct targets as shots, every two shots target different cells. |
| `Games.TargetsMembers` | Battleship/src/Game.java:200 | A cell is among the targets exactly when some shot turn fired at it. |
| `Games.TargetsBound` | Battleship/src/Game.java:200 | There are no more distinct targets than shots, and no more shots than turns. |
| `Games.MoverParity` | Battleship/src/Game.java:183-188 | A takes the even-numbered turns and B the odd-numbered ones. |
| `Games.AlternatesAt` | Battleship/src/Game.java:220-226 | The turns alternate exactly when the i-th turn is taken by the i-th mover, for every i. |
| `Games.ContinuesAt` | Battleship/src/Game.java:186 | A run of turns continues exactly when none of them ends the game. |
| `Games.StruckTwice` | Battleship/src/Game.java:203-208 | Firing at T and then at U destroys the same ships as firing at T and U together. |
| `Games.FlagsAfterShot` | Battleship/src/Game.java:203-208 | Ships whose flags were set exactly by a shot at t carry the flags `Struck` gives for {t}. |

## Left out

- `Game.main` and `Game.viewBattleField` are console I/O, as is every printed message. Errors are results (`GameError`), and the turn messages are the `TurnEvent` log.
- `java.util.Random`: the random index is a nondeterministic choice among the candidates.
- Java `int` overflow in `centre ± size/2`: the model uses unbounded integers. The `long` count of `getRemainingShips` is a `nat`.
- The game's `players` map is the two fields `playerA` and `playerB`, and the fire strategy is always the random one.
- Before `initGame` the source leaves `allFiredCoordinates` and `currentTurn` null. The model starts them at the empty set and A. Neither is read before `initGame` succeeds.
- `Player.firedShots` is created empty and never written, as in the source.
- The getters (`getId`, `getOwnerName`, `isDestroyed`, `getOccupiedCells`, `getSize`, `getGrid`, `getName`, `getFleet`, `getFiredShots`) are plain field reads.
- `Ships.Ship.constructor` requires an even side. The exception the source throws for an odd side is modelled by `Ships.Ship.Create`.
- `Battlefields.Battlefield.constructor` requires n >= 0. The source would fail to allocate a negative-size array, and it only calls the constructor with a positive size.
- `Battlefields.Battlefield.PlaceShip`: which broken rule is reported depends on the hash set's iteration order. The model only states that the reported error is the first rule broken by some footprint cell.
- `Ships.Ship.Destroy`: the flag never going back to false is not stated as a lemma. It holds because no other member writes the flag.
- `Games.Game.AddShip` does not restate the grid cell by cell. The new ships' cells are given by `placed`, their footprints and `Valid`.
- `Games.Game.PlayTurn` does not repeat the hit and live-count facts. Those are stated on `Games.Game.ShootAt`, which it calls for every shot.
- `Games.Game.StartGame` does not restate that the loser's fleet is destroyed when the game ends. It states that the last shot's reported live count for the defender is zero. `Games.Game.ShootAt` states that a reported count is the player's remaining ships at that moment, and that it is zero exactly when the fleet is destroyed.
