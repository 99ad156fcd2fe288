# Spatial grid and scoreboard of Asteroids-2

This project models two self-contained parts of the game in Dafny and proves properties of them.

- **`Spatial` (SpatialGrid.dfy)** is the uniform-grid spatial index.
  - A `width` x `height` array of entity buckets is kept consistent with `lastPositions`. That map gives each entity the cell it was last seen in. An entity off the grid has no entry.
  - `UpdateEntity` moves an entity between buckets.
  - `Generate` allocates the buckets and registers a list of entities.
  - `GetPositionInGrid` maps a point to its cell by floor division. `IsInsideGrid` is the bounds test.
  - `Query` normalises a box and clamps its corner cells. It lists the cells in range and keeps the bucket contents that lie in the box and pass a filter.
  - The grid is a `class`: `buckets` is an `array2<set<E>>` and `lastPositions` a `map`. The class invariant `Valid()` states that each entity is in exactly the bucket `lastPositions` names, and in none when it is unmapped.
- **`UI` (Scoreboard.dfy)** is the end-of-level scoreboard.
  - A dictionary from enemy name to `(kills, totalScore)` is updated by the enemy-destroyed handler.
  - `OrderScores` pads the enemy types never killed with `(0, 0)` and joins with the enemy flyweights. It drops rows without kills and ranks the rest by score descending, kills ascending, then name. It also computes the grand totals.
  - The scoreboard is a `class` whose handler method updates the dictionary in place. A ghost event history lets the invariant state the totals.
  - The ranking pipeline is pure functions. The ranking as the program computes it (`RankingAsWritten`, which `OrderScores` returns) is proved equal to the ranked rows, one per flyweight whose name has kills, carrying that name's tally (so a flyweight name listed twice gives two equal rows). The corrected ranking (`Ranking`, see "## Findings") is proved equal to the same rows plus the boss line when the boss has kills. Both are independent of the dictionary's enumeration order.

Positions are exact reals, and integers are unbounded (see "Left out").

## Model

| member | source | states |
|---|---|---|
| Spatial.IsInsideGrid | Assets/Scripts/Grid/SpatialGrid.cs:145-150 | the bounds test `0 <= col < width && 0 <= row < height`; its partner is `Spatial.OutsideIsNeverInside` |
| Spatial.GetPositionInGrid | Assets/Scripts/Grid/SpatialGrid.cs:138-143 | the cell of a point is the floored quotient of its offset from the origin by the cell size, per axis; its partner is `Spatial.PositionInGridIsTheBand` |
| Spatial.OutsideIsNeverInside | Assets/Scripts/Grid/SpatialGrid.cs:145-150 | the `Outside` cell `(-1, -1)` is never inside the grid, and no inside cell equals it |
| Spatial.PositionInGridIsTheBand | Assets/Scripts/Grid/SpatialGrid.cs:138-143 | `GetPositionInGrid(p) == (i, j)` iff `x + i*cellWidth <= p.x < x + (i+1)*cellWidth` and likewise for rows, so the cell is the unique one whose bands hold the point |
| Spatial.FloorOfQuotient | Assets/Scripts/Grid/SpatialGrid.cs:141-142 | `floor(v / w) == i` iff `i*w <= v < (i+1)*w` for a positive cell size `w` |
| Spatial.FloorOfQuotientMonotone | Assets/Scripts/Grid/SpatialGrid.cs:141-142 | the point-to-cell map is monotone on each axis |
| Spatial.Clamp | Assets/Scripts/Grid/SpatialGrid.cs:109-110 | the clamped value lies in `[lo, hi]`, is `v` when `v` is already there, and is the nearer bound otherwise |
| Spatial.ClampCell | Assets/Scripts/Grid/SpatialGrid.cs:109-110 | the clamped cell lies in `[0, width] x [0, height]`, and a cell inside the grid is kept as it is |
| Spatial.Moved | Assets/Scripts/Grid/SpatialGrid.cs:92-98 | after a move to cell `c` the entity maps to `c` when `c` is inside and has no entry otherwise; every other entity's entry is unchanged |
| Spatial.MovedToSameCellIsNoOp | Assets/Scripts/Grid/SpatialGrid.cs:78-83 | when the recorded cell (or `Outside` for an unmapped entity) equals the current cell, the map is unchanged |
| Spatial.BucketAfterMove | Assets/Scripts/Grid/SpatialGrid.cs:85-98 | after a move, the bucket of the new inside cell gains the entity and every other bucket loses it |
| Spatial.Tracked | Assets/Scripts/Grid/SpatialGrid.cs:69-73 | `lastPositions` after `UpdateEntity` on each listed entity in turn; only listed entities are tracked, each at a cell inside the grid |
| Spatial.TrackedExactly | Assets/Scripts/Grid/SpatialGrid.cs:69-73 | after registering a list, an entity is tracked iff it is in the list and its current cell is inside, and then its recorded cell is that cell |
| Spatial.TrackedBuckets | Assets/Scripts/Grid/SpatialGrid.cs:52-74 | after registering a list, each bucket holds exactly the listed entities whose current cell it is |
| Spatial.CountWhile | Assets/Scripts/Grid/SpatialGrid.cs:116-120 | the generated-and-cut sequence is `n, n+1, ...` and holds exactly the `k >= n` with `k < limit` and `k <= last` |
| Spatial.CellsOfColumn | Assets/Scripts/Grid/SpatialGrid.cs:123-125 | the cells of one column hold exactly the pairs `(col, row)` with `row` among the rows |
| Spatial.CellProduct | Assets/Scripts/Grid/SpatialGrid.cs:122-126 | the cell list holds exactly the pairs of a listed column and a listed row |
| Spatial.Lower | Assets/Scripts/Grid/SpatialGrid.cs:103 | the normalised `from` corner is the componentwise minimum of the two corners |
| Spatial.Upper | Assets/Scripts/Grid/SpatialGrid.cs:104 | the normalised `to` corner is the componentwise maximum of the two corners |
| Spatial.InBox | Assets/Scripts/Grid/SpatialGrid.cs:131-134 | a position lies in the closed box between the normalised corners, on both axes |
| Spatial.FromCoord | Assets/Scripts/Grid/SpatialGrid.cs:103-110 | the lower corner of the box (componentwise minimum of the two points), mapped to its cell and clamped into `0..width` × `0..height`; its properties are stated by `Spatial.ClampCell` and `Spatial.QueryCells` |
| Spatial.ToCoord | Assets/Scripts/Grid/SpatialGrid.cs:103-110 | the upper corner of the box (componentwise maximum of the two points), mapped to its cell and clamped into `0..width` × `0..height`; its properties are stated by `Spatial.ClampCell` and `Spatial.QueryCells` |
| Spatial.QueryCells | Assets/Scripts/Grid/SpatialGrid.cs:106-126 | the visited cells are all inside the grid; there are none when both clamped corners are outside, and otherwise they are exactly the cells between the clamped corners with `col < width` and `row < height` |
| Spatial.SpatialGrid.constructor | Assets/Scripts/Grid/SpatialGrid.cs:32-35 | a new grid tracks no entity |
| Spatial.SpatialGrid.Generate | Assets/Scripts/Grid/SpatialGrid.cs:52-74 | allocates a fresh `width` x `height` bucket array, establishes the invariant, and leaves `lastPositions` as the registration of the list; each bucket holds exactly the listed entities in its cell, so all are empty for an empty list |
| Spatial.SpatialGrid.UpdateEntity | Assets/Scripts/Grid/SpatialGrid.cs:76-99 | keeps the invariant and the bucket array; the new map is `Moved` of the old; the bucket of the current cell gains the entity and every other bucket loses it, so other entities are untouched |
| Spatial.SpatialGrid.Gather | Assets/Scripts/Grid/SpatialGrid.cs:129-130 | the union of the buckets of the given cells is exactly the tracked entities recorded in one of those cells |
| Spatial.SpatialGrid.Query | Assets/Scripts/Grid/SpatialGrid.cs:101-136 | every returned entity is tracked, lies in the closed box between the normalised corners and passes the filter |
| Spatial.QueryIsSymmetric | Assets/Scripts/Grid/SpatialGrid.cs:103-104 | swapping the two corners gives the same result |
| Spatial.QueryFindsTrackedEntity | Assets/Scripts/Grid/SpatialGrid.cs:106-135 | a tracked entity whose recorded cell is its current cell is returned by every query whose box holds it and whose filter accepts it |
| Spatial.QueryPastTheGridIsEmpty | Assets/Scripts/Grid/SpatialGrid.cs:109-113 | a box whose lower corner lies past the last column or row returns nothing |
| UI.TallyOf | Assets/Scripts/UI/Scoreboard.cs:44 | `TryGetValue`: the stored tally, or `(0, 0)` for a name never killed |
| UI.Recorded | Assets/Scripts/UI/Scoreboard.cs:43-46 | recording a kill sets the name's tally to the old one (or `(0, 0)` when absent) plus one kill and the score; it keeps every other key and its value; kills never decrease; the key count grows only for a new name |
| UI.Totals | Assets/Scripts/UI/Scoreboard.cs:72 | the two `Sum`s over the dictionary's values, enumerating its keys in a given order; its partners are `UI.TotalsIndependentOfOrder` and the invariant of `UI.RecordKeepsConsistent` |
| UI.TotalsAfterRecordKnown | Assets/Scripts/UI/Scoreboard.cs:44-45 | recording a kill of a known name adds one kill and the score to the summed totals |
| UI.EnumerationAppended | Assets/Scripts/UI/Scoreboard.cs:45 | a new key appended to the enumeration order enumerates the extended dictionary |
| UI.TotalsAfterRecordNew | Assets/Scripts/UI/Scoreboard.cs:44-45 | recording a kill of a new name appends it to the enumeration and adds one kill and the score to the summed totals |
| UI.TotalsIndependentOfOrder | Assets/Scripts/UI/Scoreboard.cs:72 | the summed kills and scores do not depend on the order the dictionary enumerates its keys in |
| UI.EventsAppended | Assets/Scripts/UI/Scoreboard.cs:43-46 | one more event adds its name to the names seen and its score to the score sum |
| UI.RecordKeepsConsistent | Assets/Scripts/UI/Scoreboard.cs:43-46 | one handled event keeps the invariant: the keys are the names killed, each with a kill, and the totals are the event count and score sum |
| UI.NameAtMost | Assets/Scripts/UI/Scoreboard.cs:65 | the name tie-break of `ThenBy(e => e.name)`, as ordinal order (see the `UI.NameAtMost` line under "## Left out"); it is a total order by `UI.NameAtMostTotal`, `UI.NameAtMostAntisymmetric` and `UI.NameAtMostTransitive` |
| UI.NameAtMostTotal | Assets/Scripts/UI/Scoreboard.cs:65 | any two names are ordered one way or the other |
| UI.NameAtMostAntisymmetric | Assets/Scripts/UI/Scoreboard.cs:65 | names ordered both ways are equal |
| UI.NameAtMostTransitive | Assets/Scripts/UI/Scoreboard.cs:65 | the name order is transitive |
| UI.RankedBefore | Assets/Scripts/UI/Scoreboard.cs:63-65 | a row ranked before another has no lower score, and with equal scores no more kills; names break the remaining ties |
| UI.RankedBeforeTotal | Assets/Scripts/UI/Scoreboard.cs:63-65 | the ranking order (score descending, kills ascending, name ascending) relates any two rows |
| UI.RankedBeforeAntisymmetric | Assets/Scripts/UI/Scoreboard.cs:63-65 | rows ranked both ways are equal, so ties never depend on input order |
| UI.RankedBeforeTransitive | Assets/Scripts/UI/Scoreboard.cs:63-65 | the ranking order is transitive |
| UI.Insert | Assets/Scripts/UI/Scoreboard.cs:63-65 | inserting a row adds exactly that row to the multiset |
| UI.InsertKeepsSorted | Assets/Scripts/UI/Scoreboard.cs:63-65 | inserting into a ranked sequence keeps it ranked |
| UI.Sort | Assets/Scripts/UI/Scoreboard.cs:63-65 | the result is ranked and a permutation of the input |
| UI.SortedIsUnique | Assets/Scripts/UI/Scoreboard.cs:63-65 | two ranked sequences with the same rows are equal, so the ordering's stability never shows |
| UI.Entries | Assets/Scripts/UI/Scoreboard.cs:51 | the dictionary's entries, one per key in enumeration order, with that key's tally |
| UI.Except | Assets/Scripts/UI/Scoreboard.cs:52-54 | the flyweight names not yet killed, each once |
| UI.Padding | Assets/Scripts/UI/Scoreboard.cs:55 | each unseen name is paired with `(0, 0)` |
| UI.Padded | Assets/Scripts/UI/Scoreboard.cs:51-55 | the dictionary's entries followed by the never-killed flyweight names with `(0, 0)`; its partner is `UI.PaddedIsWellFormed` |
| UI.PaddedLayout | Assets/Scripts/UI/Scoreboard.cs:51-55 | the padded sequence is each dictionary entry in enumeration order, then each unseen name with `(0, 0)` |
| UI.PaddedHasDistinctKeys | Assets/Scripts/UI/Scoreboard.cs:51-55 | no key occurs twice in the padded sequence |
| UI.PaddedCarriesTallies | Assets/Scripts/UI/Scoreboard.cs:51-55 | every padded entry carries its name's tally, or `(0, 0)` for a name never killed |
| UI.PaddedCoversEnemies | Assets/Scripts/UI/Scoreboard.cs:51-55 | every flyweight name is a key of the padded sequence |
| UI.PaddedIsWellFormed | Assets/Scripts/UI/Scoreboard.cs:51-55 | the padded sequence has distinct keys, each entry carries its name's tally or `(0, 0)`, and every flyweight name is a key |
| UI.Matches | Assets/Scripts/UI/Scoreboard.cs:56 | one outer entry yields only rows carrying its key and tally |
| UI.Join | Assets/Scripts/UI/Scoreboard.cs:56 | every joined row's name is a flyweight name |
| UI.PerEnemy | Assets/Scripts/UI/Scoreboard.cs:51-56 | the reference definition: one row per flyweight name, in order, with that name's tally or `(0, 0)` |
| UI.JoinIsPerEnemy | Assets/Scripts/UI/Scoreboard.cs:56 | over a well-formed padded sequence, the join yields the same rows as the reference definition |
| UI.Shown | Assets/Scripts/UI/Scoreboard.cs:62 | a row is kept iff it has a kill |
| UI.ShownCounts | Assets/Scripts/UI/Scoreboard.cs:62 | the filter keeps every copy of a row with kills and none of a row without |
| UI.ShownKeepsMultiset | Assets/Scripts/UI/Scoreboard.cs:62 | filtering permutations gives permutations |
| UI.RankingAsWritten | Assets/Scripts/UI/Scoreboard.cs:51-65 | the displayed rows as written are ranked, each has a kill and a flyweight name |
| UI.RankingIsPerEnemy | Assets/Scripts/UI/Scoreboard.cs:51-65 | the displayed rows are exactly the ranked per-flyweight rows with kills |
| UI.BossRow | Assets/Scripts/UI/Scoreboard.cs:58-59 | the boss line exists exactly when the dictionary holds the boss with kills, and then carries the boss's tally |
| UI.Ranking | Assets/Scripts/UI/Scoreboard.cs:51-65 | the corrected display is ranked, each row has a kill and a flyweight or boss name, and the boss line is present whenever the boss has kills |
| UI.RankingIsPerEnemyWithBoss | Assets/Scripts/UI/Scoreboard.cs:51-65 | the corrected display is exactly the ranked per-flyweight rows plus the boss line, those with kills |
| UI.RankingIndependentOfOrder | Assets/Scripts/UI/Scoreboard.cs:51-65 | both displays are the same under any enumeration order of the dictionary |
| UI.BossLineIsLostAsWritten | Assets/Scripts/UI/Scoreboard.cs:58-59 | as written, no displayed row is the boss's when `Boss` is not a flyweight name |
| UI.NoFlyweightKillShowsNothing | Assets/Scripts/UI/Scoreboard.cs:51-62 | when no flyweight name has kills, the joined rows show nothing |
| UI.BossLineIsLostExample | Assets/Scripts/UI/Scoreboard.cs:58-59 | with one boss kill worth 1000 and no other kill, the display as written is empty |
| UI.BossLineIsShownExample | Assets/Scripts/UI/Scoreboard.cs:58-59 | in the same case the corrected display is the single boss line |
| UI.Scoreboard.constructor | Assets/Scripts/UI/Scoreboard.cs:35 | a new scoreboard has an empty dictionary and satisfies the invariant |
| UI.Scoreboard.RecordKill | Assets/Scripts/UI/Scoreboard.cs:43-46 | the handler keeps the invariant; the dictionary becomes `Recorded` of the old one; a new name is appended to the enumeration order |
| UI.Scoreboard.OrderScores | Assets/Scripts/UI/Scoreboard.cs:49-73 | the board shows the ranking as the program computes it, without the boss line, and its grand total is the number of kills and the score sum of every event handled, shown or not |

## Left out

- The object pool and the rewind manager are not part of this model. Their source is not among the files modelled.
- `OnDrawGizmos`, `OnDestroy`, `RecursiveWalker` and the `OnMove` subscriptions are rendering, debug logging and engine event wiring. `Generate` takes the entity list and each entity's position as parameters instead of walking the transform hierarchy.
- An entity's `Position` is external state. `UpdateEntity` takes it as a parameter, and `Query` takes a position function.
- `Util.Clamp` and `Util.Generate` are not part of this model. Clamping is taken as inclusive. `Generate(s, f)` followed by `TakeWhile` is taken as the counting sequence cut at the first failure.
- `Vector2` float arithmetic is modelled with exact reals. Rounding, NaN and infinite coordinates are not modelled. `Mathf.FloorToInt` is modelled as the exact floor; its conversion to a 32-bit `int`, whose result is unspecified for quotients beyond the `int` range, is not modelled.
- Cell sizes are positive reals and `width`/`height` are naturals. The source does not guard against a zero or negative cell size (division by zero, or bands that run backwards) or a negative dimension (the array allocation throws).
- The grid's origin, cell sizes and dimensions are public mutable fields in the source and could change after `Generate`. The model fixes them at construction as the `layout` constant.
- Spatial.SpatialGrid.Generate: requires an empty `lastPositions`. The source never clears that dictionary, so a second `Generate` would keep entries whose buckets were just reallocated. The model covers one `Generate` on a grid with an empty `lastPositions`.
- Spatial.SpatialGrid.Query: the result is computed at the call. The source returns a deferred LINQ pipeline that reads the buckets and positions only when it is enumerated. Moves made during enumeration are not modelled, nor is the `InvalidOperationException` a `HashSet` bucket throws when it changes under its enumerator.
- Spatial.SpatialGrid.UpdateEntity: requires `Valid()`, which `Generate` establishes. A call before `Generate`, where the source dereferences the null `buckets`, is not modelled.
- Spatial.SpatialGrid.Query: returns a set. The order in which the `HashSet` buckets enumerate is unspecified. Each entity is in one bucket and the cells are distinct, so no entity is yielded twice.
- Spatial.SpatialGrid.Query: the contract states soundness. Completeness is `Spatial.QueryFindsTrackedEntity`, which assumes the entity's recorded cell matches its current position, because the source updates buckets only on `OnMove`.
- The enemy-destroyed subscription (`EventManager.Subscribe`) is engine plumbing. `RecordKill` is the handler body.
- `Instantiate`, `ScoreField.SetTarget`/`SetSprite`, `Resources.Load<Sprite>` and the sprite fields are UI and asset loading. A row is `(name, kills, totalScore)`, and the board is the ranked rows plus the total.
- UI.Scoreboard.RecordKill: C# `int` arithmetic wraps on overflow and `Sum` throws on overflow. Both are modelled as unbounded integers.
- UI.NameAtMost: `ThenBy(e => e.name)` uses the default culture-sensitive string comparer. It is modelled as ordinal (character-code) order.
- The dictionary's enumeration order is modelled as the `order` field, the keys in first-insertion order, which is the order a `Dictionary` without removals enumerates in. The ranking and the totals are proved not to depend on it.
- The event history of `UI.Scoreboard` is ghost state, used only to state the totals invariant.

## Findings

| source | as written | input that shows it | evidently intended | confidence | as-written member | corrected member |
|---|---|---|---|---|---|---|
| Assets/Scripts/UI/Scoreboard.cs:58-59 | `enumerable.Append(...)` returns a new sequence that is discarded, so the boss line is never added to the ranking (the boss's kills still count in the grand total) | `killedEnemies = {"Boss": (1, 1000)}`, flyweights `"Simple"` and `"Bomber"`: the ranking is empty | `enumerable = enumerable.Append(...)`, so the ranking shows the boss line `("Boss", 1, 1000)` | not executed | UI.BossLineIsLostExample | UI.Ranking |
